/** Address-building code in the image a whole relocation pass leaves: what the processor computes
    from the final bytes. */
module Linking {
  import opened Bits
  import opened Insn
  import opened Memory
  import opened Reloc
  import opened Decode
  import opened Resolve
  import opened Formulas
  import opened Chains
  import opened Pass
  import opened Replay

  /** The entry's value is in range, where the engine does not check it but the formula needs it. */
  predicate PageInRange(f: Fixup, base: nat) {
    f.t == ADR_PREL_PG_HI21_NC ==>
      InRange(ADR_PREL_PG_HI21, ToI64(Pattern(f.t, Place(base, f.loc), f.val)))
  }

  /** The place of f computes the standard's formula of its type. */
  predicate Meets(f: Fixup, base: nat, mem: seq<byte>)
    requires f.loc + f.Size() <= |mem|
  {
    Formula(f.t, Place(base, f.loc), f.val, f.CellIn(mem))
  }

  lemma OneLinked(mem: seq<byte>, base: nat, f: Fixup)
    requires f.loc + f.Size() <= |mem| && Sited(f, mem)
    ensures var met := Formula(f.t, Place(base, f.loc), f.val, f.Patched(base, f.CellIn(mem)));
            && (PageInRange(f, base) && f.Outcome(base) == 0 ==> met)
            && (Checked(f.t) ==> (f.Outcome(base) == 0 <==> met))
            && (AnyValue(f.t) ==> met)
            && Truncated(f.t, Pattern(f.t, Place(base, f.loc), f.val), f.Patched(base, f.CellIn(mem)))
  {
    hide Cell, Formula, Status, Targets, HowtoOf, CellTop, Load, InRange, Pattern, Checked, Resolved, AnyValue, Fits;
    hide Truncated;
    HowtoWellFormed(f.t);
    LoadBound(mem, f.loc, f.Size());
    var place, cell := Place(base, f.loc), f.CellIn(mem);
    if PageInRange(f, base) && f.Outcome(base) == 0 {
      SuccessMeetsFormula(f.t, place, f.val, cell);
    }
    if Checked(f.t) {
      StatusExact(f.t, place, f.val, cell);
    }
    WrittenAnyway(f.t, place, f.val, cell);
    ResolvedExactly(f.t, place, f.val, cell);
    FormulaIsResolved(f.t, place, f.val, Cell(HowtoOf(f.t), place, f.val, cell));
  }

  /** Link correctness, against the standard's table, for any list of entries: in the final image
      every entry whose place overlaps no other meets its formula if it returned 0, a checked one
      only then, and one that takes any value always; in range or not, it holds its value cut to
      size. No byte outside the places has changed. */
  lemma LinkCorrect(mem: seq<byte>, base: nat, fs: seq<Fixup>)
    requires Inside(fs, |mem|)
    ensures var final := Run(mem, base, fs);
            && (forall f :: f in fs && Alone(f, fs) && Sited(f, mem) ==>
                 && (PageInRange(f, base) && f.Outcome(base) == 0 ==> Meets(f, base, final))
                 && (Checked(f.t) ==> (f.Outcome(base) == 0 <==> Meets(f, base, final)))
                 && (AnyValue(f.t) ==> Meets(f, base, final))
                 && Truncated(f.t, Pattern(f.t, Place(base, f.loc), f.val), f.CellIn(final)))
            && (forall i :: 0 <= i < |mem| && (forall f :: f in fs ==> !f.Covers(i)) ==> final[i] == mem[i])
  {
    hide Run, Sited, PageInRange, Formula, Status, Load, Alone, Checked, AnyValue, Truncated, Pattern;
    forall f | f in fs && Alone(f, fs) && Sited(f, mem)
      ensures PageInRange(f, base) && f.Outcome(base) == 0 ==> Meets(f, base, Run(mem, base, fs))
      ensures Checked(f.t) ==> (f.Outcome(base) == 0 <==> Meets(f, base, Run(mem, base, fs)))
      ensures AnyValue(f.t) ==> Meets(f, base, Run(mem, base, fs))
      ensures Truncated(f.t, Pattern(f.t, Place(base, f.loc), f.val), f.CellIn(Run(mem, base, fs)))
    {
      ApartCell(mem, base, fs, f);
      OneLinked(mem, base, f);
    }
    forall i | 0 <= i < |mem| && (forall f :: f in fs ==> !f.Covers(i))
      ensures Run(mem, base, fs)[i] == mem[i]
    {
      RunFrame(mem, base, fs, i);
    }
  }

  /** The instruction at the place of f. */
  function WordAt(f: Fixup, mem: seq<byte>): u32
    requires PatchesCode(f) && f.loc + f.Size() <= |mem|
  {
    CellTops();
    LoadBound(mem, f.loc, 4);
    f.CellIn(mem)
  }

  /** After the pass, the instruction at each place is the patch of the one that was there. */
  lemma FinalWord(mem: seq<byte>, base: nat, fs: seq<Fixup>, f: Fixup)
    requires Inside(fs, |mem|) && f in fs && Alone(f, fs) && PatchesCode(f)
    ensures WordAt(f, Run(mem, base, fs)) == Word(f.t, Place(base, f.loc), f.val, WordAt(f, mem))
  {
    hide Cell, Run, HowtoOf, CellTop;
    CellTops();
    ApartCell(mem, base, fs, f);
  }

  /** And keeps every bit outside its immediate and a signed group's opcode. */
  lemma FinalFrame(mem: seq<byte>, base: nat, fs: seq<Fixup>, f: Fixup, mask: u32)
    requires Inside(fs, |mem|) && f in fs && Alone(f, fs) && PatchesCode(f)
    requires WellFormed(HowtoOf(f.t)) && Unwritten(HowtoOf(f.t), mask)
    ensures BitAnd(WordAt(f, Run(mem, base, fs)), mask) == BitAnd(WordAt(f, mem), mask)
  {
    hide Cell, Run, HowtoOf, CellTop, BitAnd, Unwritten, WordAt;
    FinalWord(mem, base, fs, f);
    PatchKeepsRest(HowtoOf(f.t), Place(base, f.loc), f.val, WordAt(f, mem), mask);
  }

  /** ADRP at one entry of the pass, then ADD at another with the same S+A: executed from the final
      image, the pair yields S+A exactly when the ADRP entry returned 0. */
  lemma AdrpAddInImage(mem: seq<byte>, base: nat, fs: seq<Fixup>, f: Fixup, g: Fixup)
    requires Inside(fs, |mem|) && f in fs && g in fs && Alone(f, fs) && Alone(g, fs) && f.val == g.val
    requires f.t == ADR_PREL_PG_HI21 && g.t == ADD_ABS_LO12_NC && PatchesCode(f) && PatchesCode(g)
    requires Targets(f.t, WordAt(f, mem)) && Targets(g.t, WordAt(g, mem))
    ensures var final := Run(mem, base, fs);
            AddResult(WordAt(g, final), AdrpResult(WordAt(f, final), Place(base, f.loc))) == f.val
            <==> f.Outcome(base) == 0
  {
    hide Run, WordAt, Word, Targets, AddResult, AdrpResult, Status;
    FinalWord(mem, base, fs, f);
    FinalWord(mem, base, fs, g);
    AdrpAddExact(Place(base, f.loc), Place(base, g.loc), f.val, WordAt(f, mem), WordAt(g, mem));
  }

  /** The same with a load or store at the second entry: it accesses S+A rounded down to its size
      exactly when the ADRP entry returned 0. */
  lemma AdrpLoadStoreInImage(mem: seq<byte>, base: nat, fs: seq<Fixup>, f: Fixup, g: Fixup)
    requires Inside(fs, |mem|) && f in fs && g in fs && Alone(f, fs) && Alone(g, fs) && f.val == g.val
    requires f.t == ADR_PREL_PG_HI21 && HowtoOf(g.t).Imm? && HowtoOf(g.t).imt == Imm12 && g.t != ADD_ABS_LO12_NC
    requires PatchesCode(f) && Targets(f.t, WordAt(f, mem)) && Targets(g.t, WordAt(g, mem))
    ensures var final := Run(mem, base, fs);
            var address := LdStAddress(WordAt(g, final), AdrpResult(WordAt(f, final), Place(base, f.loc)));
            && (address == f.val - f.val % Pow2(HowtoOf(g.t).lsb) <==> f.Outcome(base) == 0)
            && (address == f.val <==> f.Outcome(base) == 0 && f.val % Pow2(HowtoOf(g.t).lsb) == 0)
  {
    hide Run, WordAt, Word, Targets, LdStAddress, AdrpResult, Status, Pow2, HowtoOf;
    FinalWord(mem, base, fs, f);
    FinalWord(mem, base, fs, g);
    AdrpLoadStore(g.t, Place(base, f.loc), Place(base, g.loc), f.val, WordAt(f, mem), WordAt(g, mem));
  }

  /** The wide moves at a list of places, executed in order. */
  function Execute(chain: seq<Fixup>, mem: seq<byte>, rd: u64): u64
    requires forall f :: f in chain ==> PatchesCode(f) && f.loc + f.Size() <= |mem|
  {
    if chain == [] then rd else Execute(chain[1..], mem, MoveWide(WordAt(chain[0], mem), rd))
  }

  function StepOf(f: Fixup, base: nat, mem: seq<byte>): Wide
    requires PatchesCode(f) && f.loc + f.Size() <= |mem|
  {
    Wide(f.t, Place(base, f.loc), f.val, WordAt(f, mem))
  }

  function StepsOf(chain: seq<Fixup>, base: nat, mem: seq<byte>): (steps: seq<Wide>)
    requires forall f :: f in chain ==> PatchesCode(f) && f.loc + f.Size() <= |mem|
    ensures |steps| == |chain|
    ensures forall k :: 0 <= k < |chain| ==> steps[k] == StepOf(chain[k], base, mem)
  {
    if chain == [] then [] else [StepOf(chain[0], base, mem)] + StepsOf(chain[1..], base, mem)
  }

  /** Executing the final bytes is running the patched steps. */
  lemma {:induction false} ExecuteIsExec(mem: seq<byte>, base: nat, fs: seq<Fixup>, chain: seq<Fixup>, rd: u64)
    requires Inside(fs, |mem|)
    requires forall f :: f in chain ==> f in fs && Alone(f, fs) && PatchesCode(f)
    ensures Execute(chain, Run(mem, base, fs), rd) == Exec(StepsOf(chain, base, mem), rd)
  {
    hide Run, WordAt, Word, MoveWide, Alone, PatchesCode;
    if chain == [] {
    } else {
      FinalWord(mem, base, fs, chain[0]);
      var s := StepOf(chain[0], base, mem);
      assert StepsOf(chain, base, mem)[1..] == StepsOf(chain[1..], base, mem);
      ExecuteIsExec(mem, base, fs, chain[1..], s.Run(rd));
    }
  }

  /** A MOVZ or MOVN and the MOVKs behind it, all entries of the pass on the same value: executed
      from the final image they leave that value, whatever the register held. */
  lemma MovwInImage(mem: seq<byte>, base: nat, fs: seq<Fixup>, chain: seq<Fixup>, u: u64, rd: u64)
    requires Inside(fs, |mem|) && chain != []
    requires forall f :: f in chain ==> f in fs && Alone(f, fs) && PatchesCode(f)
    requires var steps := StepsOf(chain, base, mem);
             && steps[0].Starts(u) && (forall s :: s in steps[1..] ==> s.Keeps(u))
             && forall g :: 0 <= g < 4 ==>
                  steps[0].StartCovers(u, g) || exists s :: s in steps[1..] && s.Group() == g
    ensures Execute(chain, Run(mem, base, fs), rd) == u
  {
    hide Run, WordAt, Execute, Exec, Wide.Starts, Wide.Keeps, Wide.StartCovers, Wide.Group, PatchesCode, StepOf;
    var steps := StepsOf(chain, base, mem);
    ExecuteIsExec(mem, base, fs, chain, rd);
    assert steps == [steps[0]] + steps[1..];
    MovwChain(steps[0], steps[1..], u, rd);
  }
}
