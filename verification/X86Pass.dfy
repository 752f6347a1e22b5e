/** A whole pass of x86_64 relocations over one image. */
module X86Pass {
  import opened Bits
  import opened Insn
  import opened Memory
  import Reloc
  import opened X86

  /** One relocation entry with its place as an image offset and its S + A. */
  datatype Entry = Entry(t: RelocType, loc: nat, val: u64) {
    function Size(): nat {
      Width(t)
    }

    predicate Covers(i: int) {
      loc <= i < loc + Size()
    }

    function CellIn(mem: seq<byte>): nat
      requires loc + Size() <= |mem|
    {
      Load(mem, loc, Size())
    }

    function At(base: nat): u64 {
      Reloc.Place(base, loc)
    }
  }

  predicate Apart(e: Entry, f: Entry) {
    e.Size() == 0 || f.Size() == 0 || e.loc + e.Size() <= f.loc || f.loc + f.Size() <= e.loc
  }

  predicate Inside(es: seq<Entry>, n: nat) {
    forall e :: e in es ==> e.loc + e.Size() <= n
  }

  predicate Disjoint(es: seq<Entry>) {
    forall i, j :: 0 <= i < j < |es| ==> Apart(es[i], es[j])
  }

  lemma ApartSymmetric(e: Entry, f: Entry)
    ensures Apart(e, f) <==> Apart(f, e)
  {
  }

  function Apply(mem: seq<byte>, base: nat, e: Entry): (mem': seq<byte>)
    requires e.loc + e.Size() <= |mem|
    ensures |mem'| == |mem|
  {
    Patch(mem, base, e.loc, e.t, e.val)
  }

  function Run(mem: seq<byte>, base: nat, es: seq<Entry>): (mem': seq<byte>)
    requires Inside(es, |mem|)
    ensures |mem'| == |mem|
    decreases |es|
  {
    if es == [] then mem
    else
      var n := |es| - 1;
      assert forall e :: e in es[..n] ==> e in es;
      assert es[n] in es;
      Apply(Run(mem, base, es[..n]), base, es[n])
  }

  /** The status entry k returns when its turn comes. */
  function Returned(mem: seq<byte>, base: nat, es: seq<Entry>, k: nat): int
    requires Inside(es, |mem|) && k < |es|
  {
    assert forall e :: e in es[..k] ==> e in es;
    assert es[k] in es;
    Outcome(es[k].t, es[k].CellIn(Run(mem, base, es[..k])), es[k].val)
  }

  lemma ApplyFrame(mem: seq<byte>, base: nat, e: Entry)
    requires e.loc + e.Size() <= |mem|
    ensures forall i :: 0 <= i < |mem| && !e.Covers(i) ==> Apply(mem, base, e)[i] == mem[i]
  {
    hide Load, Stored;
  }

  lemma NoCell(e: Entry, a: seq<byte>, b: seq<byte>)
    requires e.Size() == 0 && e.loc <= |a| && e.loc <= |b|
    ensures e.CellIn(a) == e.CellIn(b)
  {
  }

  /** What an entry leaves in its cell, from the cell it finds. */
  lemma ApplyCell(a: seq<byte>, b: seq<byte>, base: nat, e: Entry)
    requires e.loc + e.Size() <= |a| && e.loc + e.Size() <= |b| && e.CellIn(a) == e.CellIn(b)
    ensures e.CellIn(Apply(a, base, e)) == e.CellIn(Apply(b, base, e))
  {
    hide Load, Store, Stored, CellTop;
    if e.Size() > 0 && e.CellIn(a) == 0 {
      PatchedCell(a, base, e.loc, e.t, e.val);
      PatchedCell(b, base, e.loc, e.t, e.val);
    } else if e.Size() == 0 {
      NoCell(e, Apply(a, base, e), Apply(b, base, e));
    }
  }

  /** A place apart from that of an entry keeps its cell. */
  lemma ApartCell(mem: seq<byte>, base: nat, e: Entry, f: Entry)
    requires e.loc + e.Size() <= |mem| && f.loc + f.Size() <= |mem| && Apart(e, f)
    ensures f.CellIn(Apply(mem, base, e)) == f.CellIn(mem)
  {
    hide Apply;
    ApplyFrame(mem, base, e);
    forall i | f.loc <= i < f.loc + f.Size()
      ensures Apply(mem, base, e)[i] == mem[i]
    {
      assert !e.Covers(i);
    }
    LoadSame(Apply(mem, base, e), mem, f.loc, f.Size());
  }

  /** A place apart from those of a pass keeps its cell. */
  lemma {:induction false} Untouched(mem: seq<byte>, base: nat, es: seq<Entry>, e: Entry)
    requires Inside(es, |mem|) && e.loc + e.Size() <= |mem| && forall f :: f in es ==> Apart(f, e)
    ensures e.CellIn(Run(mem, base, es)) == e.CellIn(mem)
    decreases |es|
  {
    hide Apply, Entry.CellIn, Entry.Size, Apart;
    if es == [] {
    } else {
      var n := |es| - 1;
      assert es[n] in es && forall f :: f in es[..n] ==> f in es;
      var m1 := Run(mem, base, es[..n]);
      Untouched(mem, base, es[..n], e);
      ApartCell(m1, base, es[n], e);
    }
  }

  /** A pass over disjoint places leaves each cell as its entry alone would, and no other byte
      changes. */
  lemma {:induction false} RunCells(mem: seq<byte>, base: nat, es: seq<Entry>)
    requires Inside(es, |mem|) && Disjoint(es)
    ensures forall e :: e in es ==> e.CellIn(Run(mem, base, es)) == e.CellIn(Apply(mem, base, e))
    ensures forall i :: 0 <= i < |mem| && (forall e :: e in es ==> !e.Covers(i)) ==> Run(mem, base, es)[i] == mem[i]
    decreases |es|
  {
    hide Apply, Entry.CellIn, Entry.Size;
    if es == [] {
    } else {
      var n := |es| - 1;
      var last := es[n];
      assert last in es && forall e :: e in es[..n] ==> e in es;
      RunCells(mem, base, es[..n]);
      var m1 := Run(mem, base, es[..n]);
      ApplyFrame(m1, base, last);
      forall e | e in es[..n]
        ensures Apart(e, last)
      {
        var j :| 0 <= j < n && es[j] == e;
      }
      Untouched(mem, base, es[..n], last);
      ApplyCell(m1, mem, base, last);
      forall e | e in es
        ensures e.CellIn(Run(mem, base, es)) == e.CellIn(Apply(mem, base, e))
      {
        if e in es[..n] {
          assert Apart(last, e) by { ApartSymmetric(e, last); }
          ApartCell(m1, base, last, e);
        } else {
          assert e == last;
        }
      }
    }
  }

  /** The entry reads back its S + A from the image. */
  predicate Reads(e: Entry, base: nat, mem: seq<byte>)
    requires e.loc + e.Size() <= |mem|
  {
    Decoded(e.t, e.At(base), e.CellIn(mem)) == e.val
  }

  /** The distance of a 32-bit place-relative entry is a signed 32-bit number, which the code does
      not check. */
  predicate Near(e: Entry, base: nat) {
    InSigned(ToI64(ToU64(e.val - e.At(base))), 32)
  }

  lemma FoundCell(mem: seq<byte>, base: nat, es: seq<Entry>, k: nat)
    requires Inside(es, |mem|) && Disjoint(es) && k < |es|
    ensures es[k].loc + es[k].Size() <= |mem|
    ensures Returned(mem, base, es, k) == Outcome(es[k].t, es[k].CellIn(mem), es[k].val)
  {
    hide Run, Outcome, Entry.CellIn;
    assert es[k] in es;
    assert forall e :: e in es[..k] ==> e in es;
    assert es[k] in es;
    forall e | e in es[..k]
      ensures Apart(e, es[k])
    {
      var j :| 0 <= j < k && es[j] == e;
    }
    Untouched(mem, base, es[..k], es[k]);
  }

  /** What becomes of entry k, by the cell it has before the pass. */
  predicate Linked(mem: seq<byte>, base: nat, es: seq<Entry>, k: nat, final: seq<byte>)
    requires Inside(es, |mem|) && |final| == |mem| && k < |es|
  {
    var e := es[k];
    assert e in es;
    && (e.CellIn(mem) != 0 ==>
         e.CellIn(final) == e.CellIn(mem) && (e.t.NONE? || Returned(mem, base, es, k) != 0))
    && (e.CellIn(mem) == 0 && e.t in {ABS64, ABS32, ABS32S, PC64} ==>
         (Returned(mem, base, es, k) == 0 <==> Reads(e, base, final)))
    && (e.CellIn(mem) == 0 && e.t in {PC32, PLT32} ==>
         Returned(mem, base, es, k) == 0 && (Reads(e, base, final) <==> Near(e, base)))
  }

  lemma OneLinked(mem: seq<byte>, base: nat, es: seq<Entry>, k: nat)
    requires Inside(es, |mem|) && Disjoint(es) && k < |es|
    ensures Linked(mem, base, es, k, Run(mem, base, es))
  {
    hide Run, Decoded, Load, InSigned, Disjoint, Stored;
    var e := es[k];
    assert e in es;
    RunCells(mem, base, es);
    FoundCell(mem, base, es, k);
    if e.CellIn(mem) == 0 {
      if e.t in {ABS64, ABS32, ABS32S, PC64} {
        AbsoluteExact(mem, base, e.loc, e.t, e.val);
      } else if e.t in {PC32, PLT32} {
        RelativeExact(mem, base, e.loc, e.t, e.val);
      }
    }
  }

  /** Link correctness on x86_64, for entries on disjoint places: an entry that finds a nonzero
      cell leaves it alone, whatever the others do. From a zero cell, a 64-bit or absolute entry
      returned 0 if and only if its place in the final image reads as S + A; a 32-bit place-relative
      one always returned 0, and its place reads as S + A if and only if it is near. No byte outside
      the places has changed. */
  lemma LinkCorrect(mem: seq<byte>, base: nat, es: seq<Entry>)
    requires Inside(es, |mem|) && Disjoint(es)
    ensures var final := Run(mem, base, es);
            && (forall k :: 0 <= k < |es| ==> Linked(mem, base, es, k, final))
            && (forall i :: 0 <= i < |mem| && (forall e :: e in es ==> !e.Covers(i)) ==> final[i] == mem[i])
  {
    hide Run, Linked, Disjoint;
    RunCells(mem, base, es);
    forall k | 0 <= k < |es|
      ensures Linked(mem, base, es, k, Run(mem, base, es))
    {
      OneLinked(mem, base, es, k);
    }
  }

  // ----- replay

  lemma {:induction false} ZeroBytes(mem: seq<byte>, off: nat, n: nat)
    requires off + n <= |mem|
    ensures Load(mem, off, n) == 0 <==> forall i :: off <= i < off + n ==> mem[i] == 0
    decreases n
  {
    if n == 0 {
    } else {
      ZeroBytes(mem, off + 1, n - 1);
    }
  }

  /** A nonzero byte never changes, so a cell that is zero afterwards was zero before. */
  lemma ZeroBefore(mem: seq<byte>, base: nat, e: Entry, f: Entry)
    requires e.loc + e.Size() <= |mem| && f.loc + f.Size() <= |mem|
    ensures f.CellIn(Apply(mem, base, e)) == 0 ==> f.CellIn(mem) == 0
  {
    hide Load, Stored;
    var m := Apply(mem, base, e);
    ZeroBytes(mem, e.loc, e.Size());
    ZeroBytes(mem, f.loc, f.Size());
    ZeroBytes(m, f.loc, f.Size());
    ApplyFrame(mem, base, e);
    assert forall i :: 0 <= i < |mem| && mem[i] != 0 ==> m[i] == mem[i];
  }

  /** An entry that changes nothing in one image stores a zero, or finds its cell taken. */
  lemma SettledEntry(mem: seq<byte>, base: nat, e: Entry)
    requires e.loc + e.Size() <= |mem|
    ensures Apply(mem, base, e) == mem
       <==> e.Size() == 0 || e.CellIn(mem) != 0 || Stored(e.t, e.At(base), e.val) == 0
  {
    hide Load, Store, Stored, CellTop;
    if e.Size() > 0 && e.CellIn(mem) == 0 {
      PatchedCell(mem, base, e.loc, e.t, e.val);
      StoreLoaded(mem, e.loc, e.Size());
    }
  }

  lemma Repeated(mem: seq<byte>, base: nat, e: Entry)
    requires e.loc + e.Size() <= |mem|
    ensures Apply(Apply(mem, base, e), base, e) == Apply(mem, base, e)
  {
    hide Load, Store, Stored;
    ReplayRefused(mem, base, e.loc, e.t, e.val);
  }

  lemma {:induction false} SettledByRun(mem: seq<byte>, base: nat, es: seq<Entry>, e: Entry)
    requires Inside(es, |mem|) && e in es
    ensures Apply(Run(mem, base, es), base, e) == Run(mem, base, es)
    decreases |es|
  {
    hide Apply, Stored, Entry.CellIn, Entry.Size;
    var n := |es| - 1;
    var last := es[n];
    assert last in es && forall f :: f in es[..n] ==> f in es;
    var m1 := Run(mem, base, es[..n]);
    var m2 := Apply(m1, base, last);
    SettledEntry(m2, base, e);
    if e == last {
      Repeated(m1, base, e);
    } else {
      SettledByRun(mem, base, es[..n], e);
      SettledEntry(m1, base, e);
      ZeroBefore(m1, base, last, e);
    }
  }

  lemma {:induction false} RunSettled(mem: seq<byte>, base: nat, es: seq<Entry>)
    requires Inside(es, |mem|) && forall e :: e in es ==> Apply(mem, base, e) == mem
    ensures Run(mem, base, es) == mem
    decreases |es|
  {
    hide Apply, Entry.Size;
    if es == [] {
    } else {
      var n := |es| - 1;
      assert es[n] in es && forall e :: e in es[..n] ==> e in es;
      RunSettled(mem, base, es[..n]);
    }
  }

  /** Replay on x86_64: a second pass changes nothing, for any entries, overlapping or repeated, on
      any cells. */
  lemma Replay(mem: seq<byte>, base: nat, es: seq<Entry>)
    requires Inside(es, |mem|)
    ensures Run(Run(mem, base, es), base, es) == Run(mem, base, es)
  {
    hide Apply, Run, Entry.Size;
    var once := Run(mem, base, es);
    forall e | e in es
      ensures Apply(once, base, e) == once
    {
      SettledByRun(mem, base, es, e);
    }
    RunSettled(once, base, es);
  }
}
