/** Whole relocation passes over an image: what a list of entries leaves behind, whatever the
    order, on replay, and at another base address. */
module Pass {
  import opened Bits
  import opened Insn
  import opened Memory
  import opened Reloc
  import opened Decode
  import opened Resolve

  /** One relocation entry with its place as an image offset and its S + A. */
  datatype Fixup = Fixup(t: RelocType, loc: nat, val: u64) {
    function Size(): nat {
      Width(HowtoOf(t))
    }

    predicate Covers(i: int) {
      loc <= i < loc + Size()
    }

    function CellIn(mem: seq<byte>): nat
      requires loc + Size() <= |mem|
    {
      Load(mem, loc, Size())
    }

    /** The cell this entry must leave, given the one it finds. */
    function Patched(base: nat, cell: nat): nat
    {
      HowtoWellFormed(t);
      if cell < CellTop(Size()) then Cell(HowtoOf(t), Place(base, loc), val, cell) else cell
    }

    function Outcome(base: nat): int {
      Status(t, Place(base, loc), val)
    }
  }

  predicate Apart(f: Fixup, g: Fixup) {
    f.Size() == 0 || g.Size() == 0 || f.loc + f.Size() <= g.loc || g.loc + g.Size() <= f.loc
  }

  /** The place of f overlaps no other place of the list; f itself may be repeated. */
  predicate Alone(f: Fixup, fs: seq<Fixup>) {
    forall g :: g in fs ==> f == g || Apart(f, g)
  }

  /** Every entry lies in an image of n bytes. */
  predicate Inside(fs: seq<Fixup>, n: nat) {
    forall f :: f in fs ==> f.loc + f.Size() <= n
  }

  predicate Disjoint(fs: seq<Fixup>) {
    forall i, j :: 0 <= i < j < |fs| ==> Apart(fs[i], fs[j])
  }

  function Apply(mem: seq<byte>, base: nat, f: Fixup): (mem': seq<byte>)
    requires f.loc + f.Size() <= |mem|
    ensures |mem'| == |mem|
  {
    HowtoWellFormed(f.t);
    Patch(mem, base, f.loc, HowtoOf(f.t), f.val)
  }

  function Run(mem: seq<byte>, base: nat, fs: seq<Fixup>): (mem': seq<byte>)
    requires Inside(fs, |mem|)
    ensures |mem'| == |mem|
    decreases |fs|
  {
    if fs == [] then mem
    else
      var n := |fs| - 1;
      assert forall f :: f in fs[..n] ==> f in fs;
      assert fs[n] in fs;
      Apply(Run(mem, base, fs[..n]), base, fs[n])
  }

  lemma RunSnoc(mem: seq<byte>, base: nat, fs: seq<Fixup>, f: Fixup)
    requires Inside(fs, |mem|) && f.loc + f.Size() <= |mem|
    ensures Inside(fs + [f], |mem|) && Run(mem, base, fs + [f]) == Apply(Run(mem, base, fs), base, f)
  {
    assert (fs + [f])[..|fs|] == fs;
  }

  lemma RunNone(mem: seq<byte>, base: nat)
    ensures Run(mem, base, []) == mem
  {
  }

  lemma {:induction false} RunAppend(mem: seq<byte>, base: nat, fs: seq<Fixup>, gs: seq<Fixup>)
    requires Inside(fs, |mem|) && Inside(gs, |mem|)
    ensures Inside(fs + gs, |mem|) && Run(mem, base, fs + gs) == Run(Run(mem, base, fs), base, gs)
    decreases |gs|
  {
    hide Fixup.Size, Run, Apply;
    assert Inside(fs + gs, |mem|);
    if gs == [] {
      assert fs + gs == fs;
      RunNone(Run(mem, base, fs), base);
    } else {
      var n := |gs| - 1;
      var g := gs[n];
      assert gs == gs[..n] + [g];
      assert forall g' :: g' in gs[..n] ==> g' in gs;
      RunAppend(mem, base, fs, gs[..n]);
      RunSnoc(mem, base, fs + gs[..n], g);
      RunSnoc(Run(mem, base, fs), base, gs[..n], g);
      assert fs + gs == fs + gs[..n] + [g];
    }
  }

  /** mem' is mem with every entry resolved from the bytes of mem, and nothing else changed. */
  ghost predicate Linked(mem: seq<byte>, base: nat, fs: seq<Fixup>, mem': seq<byte>)
    requires Inside(fs, |mem|)
  {
    && |mem'| == |mem|
    && (forall f :: f in fs ==> f.CellIn(mem') == f.Patched(base, f.CellIn(mem)))
    && (forall i :: 0 <= i < |mem| && (forall f :: f in fs ==> !f.Covers(i)) ==> mem'[i] == mem[i])
  }

  lemma EmptyCell(f: Fixup, base: nat, mem: seq<byte>)
    requires f.Size() == 0 && f.loc <= |mem|
    ensures f.Patched(base, f.CellIn(mem)) == f.CellIn(mem) == 0
  {
    HowtoWellFormed(f.t);
  }

  /** One entry: its own cell becomes what it must be, all other bytes stay. */
  lemma ApplyStep(mem: seq<byte>, base: nat, f: Fixup)
    requires f.loc + f.Size() <= |mem|
    ensures f.CellIn(Apply(mem, base, f)) == f.Patched(base, f.CellIn(mem))
    ensures forall i :: 0 <= i < |mem| && !f.Covers(i) ==> Apply(mem, base, f)[i] == mem[i]
  {
    hide Cell;
    HowtoWellFormed(f.t);
    var n := f.Size();
    LoadBound(mem, f.loc, n);
    if n > 0 {
      CellBound(HowtoOf(f.t), Place(base, f.loc), f.val, Load(mem, f.loc, n));
      LoadStore(mem, f.loc, n, f.Patched(base, f.CellIn(mem)));
    } else {
      EmptyCell(f, base, mem);
    }
  }

  /** No byte outside the places of a pass changes, whatever the places. */
  lemma {:induction false} RunFrame(mem: seq<byte>, base: nat, fs: seq<Fixup>, i: nat)
    requires Inside(fs, |mem|) && i < |mem| && forall f :: f in fs ==> !f.Covers(i)
    ensures Run(mem, base, fs)[i] == mem[i]
    decreases |fs|
  {
    hide Apply, Fixup.Size, Fixup.Covers;
    if fs == [] {
      RunNone(mem, base);
    } else {
      var n := |fs| - 1;
      assert fs[n] in fs && forall f :: f in fs[..n] ==> f in fs;
      RunFrame(mem, base, fs[..n], i);
      ApplyStep(Run(mem, base, fs[..n]), base, fs[n]);
    }
  }

  /** Two images that agree on an entry's bytes hold the same cell there. */
  lemma SameCell(f: Fixup, a: seq<byte>, b: seq<byte>)
    requires f.loc + f.Size() <= |a| && f.loc + f.Size() <= |b|
    requires forall i :: 0 <= i < |a| && f.Covers(i) ==> i < |b| && a[i] == b[i]
    ensures f.CellIn(a) == f.CellIn(b)
  {
    forall i | f.loc <= i < f.loc + f.Size()
      ensures a[i] == b[i]
    {
      assert f.Covers(i);
    }
    LoadSame(a, b, f.loc, f.Size());
  }

  /** And two images with the same cell agree on its bytes. */
  lemma SameBytes(f: Fixup, a: seq<byte>, b: seq<byte>, i: nat)
    requires f.loc + f.Size() <= |a| && f.loc + f.Size() <= |b| && f.Covers(i)
    requires f.CellIn(a) == f.CellIn(b)
    ensures a[i] == b[i]
  {
    hide Load, Bytes, Fixup.Size;
    BytesOfLoad(a, f.loc, f.Size());
    BytesOfLoad(b, f.loc, f.Size());
    assert a[i] == a[f.loc..f.loc + f.Size()][i - f.loc];
    assert b[i] == b[f.loc..f.loc + f.Size()][i - f.loc];
  }

  /** One more entry, apart from those already linked. */
  lemma LinkStep(mem: seq<byte>, base: nat, fs: seq<Fixup>, last: Fixup, m1: seq<byte>)
    requires Inside(fs, |mem|) && last.loc + last.Size() <= |mem| && Linked(mem, base, fs, m1)
    requires forall f :: f in fs ==> Apart(f, last)
    ensures Inside(fs + [last], |mem|) && Linked(mem, base, fs + [last], Apply(m1, base, last))
  {
    hide Fixup.Patched, Fixup.CellIn, Apply, Fixup.Size;
    var m2 := Apply(m1, base, last);
    ApplyStep(m1, base, last);
    SameCell(last, m1, mem);
    forall f | f in fs
      ensures f.CellIn(m2) == f.CellIn(m1)
    {
      SameCell(f, m2, m1);
    }
    forall i | 0 <= i < |mem| && (forall f :: f in fs + [last] ==> !f.Covers(i))
      ensures m2[i] == mem[i]
    {
      assert last in fs + [last];
      assert forall f :: f in fs ==> f in fs + [last];
    }
  }

  lemma LinkedNone(mem: seq<byte>, base: nat)
    ensures Linked(mem, base, [], mem)
  {
  }

  /** A pass over disjoint places: every cell is patched from what it held before the pass, and
      every other byte is unchanged. */
  lemma {:induction false} RunLinks(mem: seq<byte>, base: nat, fs: seq<Fixup>)
    requires Inside(fs, |mem|) && Disjoint(fs)
    ensures Linked(mem, base, fs, Run(mem, base, fs))
    decreases |fs|
  {
    hide Linked, Apply, Fixup.Size;
    if fs == [] {
      LinkedNone(mem, base);
    } else {
      var n := |fs| - 1;
      assert forall f :: f in fs[..n] ==> f in fs;
      RunLinks(mem, base, fs[..n]);
      forall f | f in fs[..n]
        ensures Apart(f, fs[n])
      {
        var j :| 0 <= j < n && fs[j] == f;
      }
      LinkStep(mem, base, fs[..n], fs[n], Run(mem, base, fs[..n]));
      assert fs == fs[..n] + [fs[n]];
    }
  }

  /** The linked image is determined by the entries, not by their order. */
  lemma LinkedUnique(mem: seq<byte>, base: nat, fs: seq<Fixup>, gs: seq<Fixup>, a: seq<byte>, b: seq<byte>)
    requires Inside(fs, |mem|) && Inside(gs, |mem|)
    requires Linked(mem, base, fs, a) && Linked(mem, base, gs, b)
    requires forall f :: f in fs <==> f in gs
    ensures a == b
  {
    forall i | 0 <= i < |mem|
      ensures a[i] == b[i]
    {
      if f :| f in fs && f.Covers(i) {
        SameBytes(f, a, b, i);
      }
    }
  }

  // ----- main results on a pass

  /** The entry patches an instruction. */
  predicate PatchesCode(f: Fixup) {
    HowtoOf(f.t).Imm? || HowtoOf(f.t).Movw?
  }

  /** The place holds an instruction of the class the entry is for; data may be anything. */
  predicate Sited(f: Fixup, mem: seq<byte>)
    requires f.loc + f.Size() <= |mem|
  {
    PatchesCode(f) ==> f.CellIn(mem) < TWO32 && Targets(f.t, f.CellIn(mem))
  }

  /** Link correctness of a whole pass: in the final image every checked entry reads as its
      formula exactly if it returned 0, every entry that takes any value reads as its formula,
      and no byte outside the places has changed. */
  lemma WholePass(mem: seq<byte>, base: nat, fs: seq<Fixup>)
    requires Inside(fs, |mem|) && Disjoint(fs)
    ensures var final := Run(mem, base, fs);
            && (forall f :: f in fs && Sited(f, mem) && Checked(f.t) ==>
                 (f.Outcome(base) == 0 <==> Resolved(f.t, Place(base, f.loc), f.val, f.CellIn(final))))
            && (forall f :: f in fs && Sited(f, mem) && AnyValue(f.t) ==>
                 Resolved(f.t, Place(base, f.loc), f.val, f.CellIn(final)))
            && (forall i :: 0 <= i < |mem| && (forall f :: f in fs ==> !f.Covers(i)) ==> final[i] == mem[i])
  {
    hide Cell, Resolved, Status, Targets, HowtoOf, AnyValue, Checked, CellTop;
    RunLinks(mem, base, fs);
    forall f | f in fs && Sited(f, mem)
      ensures AnyValue(f.t) ==> Resolved(f.t, Place(base, f.loc), f.val, f.CellIn(Run(mem, base, fs)))
      ensures Checked(f.t) ==>
                (f.Outcome(base) == 0
                 <==> Resolved(f.t, Place(base, f.loc), f.val, f.CellIn(Run(mem, base, fs))))
    {
      HowtoWellFormed(f.t);
      LoadBound(mem, f.loc, f.Size());
      ResolvedExactly(f.t, Place(base, f.loc), f.val, f.CellIn(mem));
      if Checked(f.t) {
        StatusExact(f.t, Place(base, f.loc), f.val, f.CellIn(mem));
      }
    }
  }

  lemma ApartSymmetric(f: Fixup, g: Fixup)
    ensures Apart(f, g) <==> Apart(g, f)
  {
  }

  function Without<T>(s: seq<T>, k: nat): seq<T>
    requires k < |s|
  {
    s[..k] + s[k + 1..]
  }

  lemma WithoutOne<T>(s: seq<T>, k: nat)
    requires k < |s|
    ensures multiset(Without(s, k)) == multiset(s) - multiset{s[k]}
  {
    assert s == s[..k] + [s[k]] + s[k + 1..];
  }

  /** Two different positions of gs come from two different positions of fs. */
  lemma TwoPlaces<T>(fs: seq<T>, gs: seq<T>, i: nat, j: nat) returns (k: nat, l: nat)
    requires multiset(fs) == multiset(gs) && i < j < |gs|
    ensures k < |fs| && l < |fs| && k != l && fs[k] == gs[i] && fs[l] == gs[j]
  {
    assert gs[i] in multiset(gs);
    k :| 0 <= k < |fs| && fs[k] == gs[i];
    WithoutOne(fs, k);
    WithoutOne(gs, i);
    assert Without(gs, i)[j - 1] == gs[j];
    assert multiset(Without(fs, k)) == multiset(Without(gs, i));
    assert gs[j] in multiset(Without(gs, i));
    var m :| 0 <= m < |Without(fs, k)| && Without(fs, k)[m] == gs[j];
    l := if m < k then m else m + 1;
  }

  /** Reordering keeps the places disjoint. */
  lemma PermutedDisjoint(fs: seq<Fixup>, gs: seq<Fixup>)
    requires multiset(fs) == multiset(gs) && Disjoint(fs)
    ensures Disjoint(gs)
  {
    hide Apart;
    forall i, j | 0 <= i < j < |gs|
      ensures Apart(gs[i], gs[j])
    {
      var a, b := gs[i], gs[j];
      assert a in multiset(gs) && b in multiset(gs);
      var k, l := TwoPlaces(fs, gs, i, j);
      ApartSymmetric(fs[k], fs[l]);
    }
  }

  /** Any order of the entries links the same image; each entry's outcome does not depend on the
      image at all, so it is the same too. */
  lemma OrderIndependence(mem: seq<byte>, base: nat, fs: seq<Fixup>, gs: seq<Fixup>)
    requires Inside(fs, |mem|) && Disjoint(fs) && multiset(fs) == multiset(gs)
    ensures Inside(gs, |mem|) && Run(mem, base, gs) == Run(mem, base, fs)
  {
    hide Linked, Fixup.Size, Run;
    PermutedDisjoint(fs, gs);
    forall f
      ensures f in fs <==> f in gs
    {
      assert f in fs <==> f in multiset(fs);
      assert f in gs <==> f in multiset(gs);
    }
    RunLinks(mem, base, fs);
    RunLinks(mem, base, gs);
    LinkedUnique(mem, base, fs, gs, Run(mem, base, fs), Run(mem, base, gs));
  }

  // ----- position independence

  /** The relocations whose result survives moving code and data together by whole pages. */
  predicate Movable(t: RelocType) {
    match HowtoOf(t)
    case Data(op, _) => op != OpAbs
    case Movw(op, _, _) => op != OpAbs
    case Imm(op, _, _, imt) => op != OpAbs || imt == Imm12
    case _ => true
  }

  function Moved(fs: seq<Fixup>, d: int): seq<Fixup> {
    seq(|fs|, i requires 0 <= i < |fs| => fs[i].(val := ToU64(fs[i].val + d)))
  }

  lemma MovedPage(v: u64, d: int)
    requires d % 0x1000 == 0
    ensures ToU64(v + d) % 0x1000 == v % 0x1000
  {
  }

  lemma PageOf(v: int, v': int)
    requires v % 0x1000 == v' % 0x1000
    ensures Page(v') - Page(v) == v' - v
  {
  }

  lemma MovedMod(x: int, c: int, e: int)
    ensures ToU64(x - c * TWO64 + e * TWO64) == ToU64(x)
  {
  }

  lemma MovedDifference(v: u64, p: u64, d: int)
    requires d % 0x1000 == 0
    ensures ToU64(ToU64(v + d) - ToU64(p + d)) == ToU64(v - p)
    ensures ToU64(Page(ToU64(v + d)) - Page(ToU64(p + d))) == ToU64(Page(v) - Page(p))
  {
    MovedPage(v, d);
    MovedPage(p, d);
    hide Page;
    var c, e := (v + d) / TWO64, (p + d) / TWO64;
    assert ToU64(v + d) == v + d - c * TWO64 && ToU64(p + d) == p + d - e * TWO64;
    MovedMod(v - p, c, e);
    MovedMod(Page(v) - Page(p), c, e);
    PageOf(v, ToU64(v + d));
    PageOf(p, ToU64(p + d));
  }

  /** The value of a place- or page-relative relocation does not see the move. */
  lemma MovedReloc(op: RelocOp, p: u64, v: u64, d: int)
    requires op != OpAbs && d % 0x1000 == 0
    ensures DoReloc(op, ToU64(p + d), ToU64(v + d)) == DoReloc(op, p, v)
  {
    hide BitAnd, Page;
    MovedDifference(v, p, d);
    PageMask(p);
    PageMask(v);
    PageMask(ToU64(p + d));
    PageMask(ToU64(v + d));
  }

  lemma CellByValue(h: Howto, p: u64, v: u64, p': u64, v': u64, cell: nat)
    requires WellFormed(h) && cell < CellTop(Width(h)) && DoReloc(OpOf(h), p, v) == DoReloc(OpOf(h), p', v')
    ensures Cell(h, p', v', cell) == Cell(h, p, v, cell) && Range(h, p', v') == Range(h, p, v)
  {
    hide DoReloc, MovwWord, ImmWord, DataCell, CellTop, Fits;
    CellTops();
  }

  lemma LowCell(h: Howto, p: u64, v: u64, p': u64, v': u64, cell: nat)
    requires WellFormed(h) && cell < CellTop(Width(h)) && h.Imm? && h.op == OpAbs
    requires Low(Shr(ToI64(v'), h.lsb), h.len) == Low(Shr(ToI64(v), h.lsb), h.len)
    ensures Cell(h, p', v', cell) == Cell(h, p, v, cell)
  {
    hide CellTop, Low, Shr, EncodeImmediate, ToI64;
    CellTops();
  }

  lemma Low12(v: u64)
    ensures Low(ToI64(v), 12) == v % 0x1000
  {
    hide Low, ToI64, Pow2;
    assert Pow2(12) == 0x1000 by { Pow2Table(); }
    LowOfI64(v, 12);
    ShrIsDiv(v, 12);
  }

  lemma MovedLow(t: RelocType, v: u64, d: int)
    requires HowtoOf(t).Imm? && HowtoOf(t).op == OpAbs && d % 0x1000 == 0
    ensures !Checked(t)
    ensures Low(Shr(ToI64(ToU64(v + d)), HowtoOf(t).lsb), HowtoOf(t).len)
         == Low(Shr(ToI64(v), HowtoOf(t).lsb), HowtoOf(t).len)
  {
    hide Low, Shr, Pow2, ToI64;
    var lsb, len, v' := HowtoOf(t).lsb, HowtoOf(t).len, ToU64(v + d);
    MovedPage(v, d);
    Low12(v);
    Low12(v');
    assert lsb + len == 12;
    LowLow(ToI64(v), lsb, len);
    LowLow(ToI64(v'), lsb, len);
  }

  /** Moving the place and the symbol by the same whole number of pages leaves the patched cell
      and the status of a movable relocation as they were. */
  lemma MovedCell(t: RelocType, p: u64, v: u64, d: int, cell: nat)
    requires Movable(t) && d % 0x1000 == 0
    requires WellFormed(HowtoOf(t)) && cell < CellTop(Width(HowtoOf(t)))
    ensures Cell(HowtoOf(t), ToU64(p + d), ToU64(v + d), cell) == Cell(HowtoOf(t), p, v, cell)
    ensures Status(t, ToU64(p + d), ToU64(v + d)) == Status(t, p, v)
  {
    hide HowtoOf, CellTop, DoReloc, Range, Low, Shr, EncodeImmediate, ToI64, Checked;
    if HowtoOf(t).Imm? && HowtoOf(t).op == OpAbs {
      MovedLow(t, v, d);
      LowCell(HowtoOf(t), p, v, ToU64(p + d), ToU64(v + d), cell);
    } else {
      MovedReloc(OpOf(HowtoOf(t)), p, v, d);
      CellByValue(HowtoOf(t), p, v, ToU64(p + d), ToU64(v + d), cell);
    }
  }

  lemma MovedInside(fs: seq<Fixup>, d: int, n: nat)
    requires Inside(fs, n) && Disjoint(fs)
    ensures Inside(Moved(fs, d), n) && Disjoint(Moved(fs, d))
  {
    forall i, j | 0 <= i < j < |fs|
      ensures Apart(Moved(fs, d)[i], Moved(fs, d)[j])
    {
      assert Apart(fs[i], fs[j]);
    }
  }

  lemma MovedFixup(f: Fixup, base: nat, d: int, cell: nat)
    requires base + d >= 0 && d % 0x1000 == 0 && Movable(f.t)
    ensures var g := f.(val := ToU64(f.val + d));
            g.Patched(base + d, cell) == f.Patched(base, cell) && g.Outcome(base + d) == f.Outcome(base)
  {
    hide Cell, Status, CellTop, Movable;
    HowtoWellFormed(f.t);
    assert Place(base + d, f.loc) == ToU64(Place(base, f.loc) + d);
    if cell < CellTop(f.Size()) {
      MovedCell(f.t, Place(base, f.loc), f.val, d, cell);
    } else {
      CellTops();
      MovedCell(f.t, Place(base, f.loc), f.val, d, 0);
    }
  }

  lemma SameCellAt(g: Fixup, f: Fixup, mem: seq<byte>)
    requires g.t == f.t && g.loc == f.loc && f.loc + f.Size() <= |mem|
    ensures g.CellIn(mem) == f.CellIn(mem)
  {
  }

  /** The two linked images agree on a byte of a movable entry, and on one of no entry. */
  lemma MovedByte(mem: seq<byte>, base: nat, d: int, fs: seq<Fixup>, a: seq<byte>, b: seq<byte>, i: nat)
    requires Inside(fs, |mem|) && base + d >= 0 && d % 0x1000 == 0 && i < |mem|
    requires Inside(Moved(fs, d), |mem|)
    requires Linked(mem, base, fs, a) && Linked(mem, base + d, Moved(fs, d), b)
    requires forall f :: f in fs && f.Covers(i) ==> Movable(f.t)
    ensures a[i] == b[i]
  {
    hide Fixup.Patched, Fixup.CellIn, Movable;
    var gs := Moved(fs, d);
    if j :| 0 <= j < |fs| && fs[j].Covers(i) {
      var f, g := fs[j], gs[j];
      assert f in fs && g in gs;
      MovedFixup(f, base, d, f.CellIn(mem));
      SameCellAt(g, f, mem);
      SameCellAt(g, f, b);
      SameBytes(f, a, b, i);
    } else {
      assert forall f :: f in fs ==> !f.Covers(i);
      forall g | g in gs
        ensures !g.Covers(i)
      {
        var j :| 0 <= j < |gs| && gs[j] == g;
        assert !fs[j].Covers(i);
      }
    }
  }

  /** Linking the same entries at a base moved by whole pages, with every symbol moved alike:
      movable entries get the same outcome, and the two images agree on every byte outside the
      absolute places. */
  lemma PositionIndependence(mem: seq<byte>, base: nat, d: int, fs: seq<Fixup>)
    requires Inside(fs, |mem|) && Disjoint(fs)
    requires base + d >= 0 && d % 0x1000 == 0
    ensures Inside(Moved(fs, d), |mem|)
    ensures forall i :: 0 <= i < |fs| && Movable(fs[i].t) ==>
              Moved(fs, d)[i].Outcome(base + d) == fs[i].Outcome(base)
    ensures forall i :: 0 <= i < |mem| && (forall f :: f in fs && f.Covers(i) ==> Movable(f.t)) ==>
              Run(mem, base + d, Moved(fs, d))[i] == Run(mem, base, fs)[i]
  {
    hide Fixup.Patched, Fixup.CellIn, Fixup.Outcome, Fixup.Size, Movable, Run, Disjoint, Inside, Linked, Fixup.Covers;
    hide ToU64;
    var gs := Moved(fs, d);
    MovedInside(fs, d, |mem|);
    RunLinks(mem, base, fs);
    RunLinks(mem, base + d, gs);
    var a, b := Run(mem, base, fs), Run(mem, base + d, gs);
    forall i | 0 <= i < |fs| && Movable(fs[i].t)
      ensures gs[i].Outcome(base + d) == fs[i].Outcome(base)
    {
      MovedFixup(fs[i], base, d, 0);
    }
    forall i | 0 <= i < |mem| && (forall f :: f in fs && f.Covers(i) ==> Movable(f.t))
      ensures b[i] == a[i]
    {
      MovedByte(mem, base, d, fs, a, b, i);
    }
  }
}
