/** The smallest program that needs every step: one object whose only instruction calls a function
    the host registered. */
module Example {
  import opened Bits
  import opened Insn
  import opened Memory
  import opened Reloc
  import opened Decode
  import opened Formulas
  import opened Pass
  import opened Elf
  import opened Layout
  import opened LayoutSafety
  import opened Loading
  import opened Symbols
  import opened Loader
  import opened Host

  const NULL := Section("", OTHER, {}, 0, 0, [], 0, [])
  const TEXT := Section(".text", PROGBITS, {Alloc, ExecInstr}, 4, 4, [0, 0, 0, 0x94], 0, [])
  const RELAS := Section(".rela.text", RELA, {}, 8, 24, [], 1, [Rela(0, 1, CALL26, 0)])
  const NOBODY := Symbol("", 0, LOCAL, false, UNDEF)
  const CALLEE := Symbol("f", 0, GLOBAL, false, UNDEF)

  function Caller(base: nat): Object {
    Object([NULL, TEXT, RELAS], [NOBODY, CALLEE], base, [0, 0, 0], 0)
  }

  function Program(base: nat, f: u64): seq<Action> {
    [Register("f", f), LoadModule(Caller(base))]
  }

  lemma CallerLayout(base: nat)
    ensures Fits32(Caller(base).secs)
    ensures var r := Places(Caller(base));
            |r.vsec| == 3 && r.total < 0x2000 && r.vsec[1] + 4 <= r.total && r.vsec[1] % 4 == 0
  {
    hide LayoutOf;
    var secs := Caller(base).secs;
    assert Total(secs, 3) == 7 by {
      assert Total(secs, 1) == 0 && Total(secs, 2) == 7;
    }
    TotalFits(secs);
    LayoutSafe(secs);
    assert Class(secs[1].flags) == 0;
  }

  lemma CallerLoads(base: nat)
    requires base % 4096 == 0 && base + 0x2000 <= TWO64
    ensures Loadable(Caller(base))
    ensures var v := Places(Caller(base)).vsec[1]; var mem := CopiedImage(Caller(base));
            v + 4 <= |mem| && mem[v..v + 4] == [0, 0, 0, 0x94]
  {
    hide LayoutOf, Copied;
    var o := Caller(base);
    CallerLayout(base);
    assert Width(HowtoOf(CALL26)) == 4;
    assert Loadable(o);
    PlacesFit(o);
    ImageExact(o.secs, Places(o).vsec, Places(o).total);
    assert Loaded(o.secs[1]);
  }

  /** The entries of the program are the one call. */
  lemma OneFixup(base: nat, env: Table)
    requires Loadable(Caller(base))
    ensures Applies(Caller(base), 2, 0)
    ensures AllFixups(Caller(base), env) == [FixupOf(Caller(base), env, 2, 0)]
  {
    hide LayoutOf, Loadable, ScanTo;
    var o := Caller(base);
    var vsec, symbols := Places(o).vsec, Scanned(o, env).symbols;
    assert Fixups(o.secs, vsec, symbols, 0) == [];
    assert Fixups(o.secs, vsec, symbols, 1) == [];
    assert Fixups(o.secs, vsec, symbols, 2) == [];
    assert EntryFixups(RELAS.relas, vsec[1], symbols, 0) == [];
    assert EntryFixups(RELAS.relas, vsec[1], symbols, 1) == [FixupOf(o, env, 2, 0)];
  }

  lemma CallTop()
    ensures BitAnd(0x25, 0x3F) == 0x25
  {
  }

  lemma CallBits()
    ensures BitAnd(0x94000000, 0xFC000000) == 0x94000000
  {
    hide BitAnd, Bits.Low, Shr, Pow2, Shl;
    assert Pow2(26) == 0x4000000 by { Pow2Table(); }
    ShlIsMul(0x25, 26);
    ShlIsMul(0x3F, 26);
    Parts(0x94000000, 26, 0, 0x25);
    Parts(0xFC000000, 26, 0, 0x3F);
    AndSplit(0x94000000, 0xFC000000, 26);
    AndZero(0);
    CallTop();
  }

  /** BL is what a call relocation is for. */
  lemma CallWord()
    ensures Targets(CALL26, 0x94000000) && Width(HowtoOf(CALL26)) == 4 && HowtoOf(CALL26).Imm? && Checked(CALL26)
  {
    hide BitAnd;
    CallBits();
  }

  lemma WordIs(mem: seq<byte>, at: nat)
    requires at + 4 <= |mem| && mem[at..at + 4] == [0, 0, 0, 0x94]
    ensures Load(mem, at, 4) == 0x94000000
  {
    assert mem[at] == 0 && mem[at + 1] == 0 && mem[at + 2] == 0 && mem[at + 3] == 0x94;
    assert Load(mem, at + 4, 0) == 0;
    assert Load(mem, at + 3, 1) == 0x94;
    assert Load(mem, at + 2, 2) == 0x9400;
    assert Load(mem, at + 1, 3) == 0x940000;
  }

  lemma CallSited(f: Fixup, mem: seq<byte>)
    requires f.t == CALL26 && f.loc + 4 <= |mem| && mem[f.loc..f.loc + 4] == [0, 0, 0, 0x94]
    ensures f.Size() == 4 && Sited(f, mem)
  {
    hide Targets, Load, HowtoOf;
    CallWord();
    WordIs(mem, f.loc);
  }

  lemma TheCallSite(base: nat, env: Table)
    requires base % 4096 == 0 && base + 0x2000 <= TWO64
    ensures Loadable(Caller(base)) && Applies(Caller(base), 2, 0)
    ensures var f := FixupOf(Caller(base), env, 2, 0); var mem := CopiedImage(Caller(base));
            && f.t == CALL26 && f.loc == Places(Caller(base)).vsec[1] && f.Size() == 4
            && f.loc + 4 <= |mem| && Sited(f, mem) && Alone(f, AllFixups(Caller(base), env))
  {
    hide LayoutOf, Loadable, ScanTo, Copied, Load, Places, Sited, Targets, HowtoOf, AllFixups;
    CallerLoads(base);
    OneFixup(base, env);
    CallSited(FixupOf(Caller(base), env, 2, 0), CopiedImage(Caller(base)));
  }

  lemma Registered(f: u64)
    ensures StepTable(map[], Register("f", f)) == map["f" := f]
  {
  }

  lemma Tables(base: nat, f: u64)
    requires base % 4096 == 0 && base + 0x2000 <= TWO64
    ensures Legal(Program(base, f))
    ensures TableAt(Program(base, f), 1) == map["f" := f] && "f" in TableAt(Program(base, f), 2)
    ensures TableAt(Program(base, f), 2)["f"] == f
  {
    hide Loadable, StepTable, Earliest;
    CallerLoads(base);
    var actions := Program(base, f);
    assert TableAt(actions, 0) == map[];
    assert TableAt(actions, 1) == map["f" := f] by { Registered(f); }
    NeverRebound(actions, 1, 2);
  }

  /** The call at loc is relocated, and goes to f. */
  predicate CallsFrom(mem: seq<byte>, base: nat, loc: nat, f: u64) {
    Status(CALL26, Place(base, loc), f) == 0
    && loc + 4 <= |mem| && Load(mem, loc, 4) < TWO32 && BranchTarget(Load(mem, loc, 4), Place(base, loc)) == f
  }

  /** The imported name means the host's address. */
  lemma MeansHost(base: nat, f: u64)
    requires base % 4096 == 0 && base + 0x2000 <= TWO64
    ensures Legal(Program(base, f)) && Loadable(Caller(base))
    ensures Meaning(Caller(base), TableAt(Program(base, f), 1), TableAt(Program(base, f), 2), 1) == Some(f)
  {
    hide Loadable, LayoutOf, BoundAt, TableAt;
    Tables(base, f);
    CallerLoads(base);
    BoundBefore(Caller(base), map["f" := f], 1);
  }

  /** What the end-to-end theorem says of the one entry. */
  lemma CallEntry(base: nat, f: u64)
    requires base % 4096 == 0 && base + 0x2000 <= TWO64
    ensures Legal(Program(base, f)) && Loadable(Caller(base))
    ensures var o := Caller(base); var loc := Places(o).vsec[1];
            var final := FinalImage(o, TableAt(Program(base, f), 1));
            && loc + 4 <= |final|
            && (Status(CALL26, Place(base, loc), f) == 0 <==> Formula(CALL26, Place(base, loc), f, Load(final, loc, 4)))
  {
    hide LayoutOf, Loadable, StepTable, Copied, Load, FinalImage, Sited, AllFixups, Alone, Status, Legal;
    hide TableAt, CellTop, HowtoOf, Formula, First, BindingsAt, Targets, Scanned, Places, Checked, Meaning;
    Tables(base, f);
    TheCallSite(base, map["f" := f]);
    CallWord();
    MeansHost(base, f);
    EntryResolved(Program(base, f), 1, 2, 0);
  }

  lemma CallFormula(place: u64, f: u64, cell: nat)
    ensures Formula(CALL26, place, f, cell) <==> cell < TWO32 && BranchTarget(cell, place) == Reachable(place, f)
  {
    hide BranchTarget, Reachable, Field, MoveWide;
  }

  lemma CallPlace(base: nat, loc: nat, f: u64)
    requires base % 4096 == 0 && loc % 4 == 0 && loc < 0x2000 && base + 0x2000 <= TWO64
    requires -0x7FF_E000 <= f - base < 0x7FF_E000
    ensures Place(base, loc) % 4 == 0 && -0x800_0000 <= f - Place(base, loc) < 0x800_0000
  {
    assert Place(base, loc) == base + loc;
  }

  lemma CallRange(x: int)
    requires -0x800_0000 <= x < 0x800_0000
    ensures InRange(CALL26, x)
  {
  }

  lemma Distance(place: u64, f: u64)
    requires place % 4 == 0 && f % 4 == 0 && -0x800_0000 <= f - place < 0x800_0000
    ensures ToI64(Pattern(CALL26, place, f)) == f - place && Reachable(place, f) == f
  {
    hide Page;
    var k, l := place / 4, f / 4;
    assert f - place == 4 * (l - k);
    assert (f - place) % 4 == 0;
  }

  lemma InReach(place: u64, f: u64)
    requires place % 4 == 0 && f % 4 == 0 && -0x800_0000 <= f - place < 0x800_0000
    ensures Status(CALL26, place, f) == 0 && Reachable(place, f) == f
  {
    hide Status, Pattern, ToI64, ToU64, Page, Checked, InRange, HowtoOf, Reachable, Targets;
    CallWord();
    StatusRange(CALL26, place, f);
    Distance(place, f);
    CallRange(f - place);
  }

  /** Loaded at any page and whatever the host's address of f is: the relocation returns 0, and the
      call in the final image goes to f, if f is word-aligned and within 2^27 bytes minus 8 KiB. */
  lemma CallReachesHost(base: nat, f: u64)
    requires base % 4096 == 0 && base + 0x2000 <= TWO64
    requires f % 4 == 0 && -0x7FF_E000 <= f - base < 0x7FF_E000
    ensures Legal(Program(base, f)) && Loadable(Caller(base))
    ensures CallsFrom(FinalImage(Caller(base), TableAt(Program(base, f), 1)), base, Places(Caller(base)).vsec[1], f)
  {
    hide Loadable, LayoutOf, FinalImage, Places, Status, Formula, BranchTarget, TableAt, Load, CellTop, Legal;
    hide Place, Reachable;
    Tables(base, f);
    CallerLoads(base);
    CallerLayout(base);
    CallEntry(base, f);
    var loc, final := Places(Caller(base)).vsec[1], FinalImage(Caller(base), TableAt(Program(base, f), 1));
    CallPlace(base, loc, f);
    InReach(Place(base, loc), f);
    CallFormula(Place(base, loc), f, Load(final, loc, 4));
  }

  lemma TwoAway(place: u64)
    ensures ToI64(Pattern(CALL26, place, ToU64(place + 2))) == 2 && (ToU64(place + 2) - place) % 4 == 2
  {
    hide Page;
  }

  /** At every place, an input on which a call misses although its relocation returned 0: BL for a
      function at the next half-word. */
  lemma MisalignedCall(place: u64)
    ensures var f := ToU64(place + 2);
            Status(CALL26, place, f) == 0 && Destination(CALL26, Word(CALL26, place, f, 0x94000000), place) != f
  {
    hide Status, Pattern, ToI64, Page, Checked, InRange, HowtoOf, Targets, Word, Destination;
    var f := ToU64(place + 2);
    CallWord();
    StatusRange(CALL26, place, f);
    TwoAway(place);
    CallRange(2);
    BranchReaches(CALL26, place, f, 0x94000000);
  }
}
