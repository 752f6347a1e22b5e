/** Section layout: five passes over the section headers that pack the ALLOC sections by class,
    in 32-bit arithmetic. */
module Layout {
  import opened Bits
  import opened Insn
  import opened Elf

  /** The mark of a section without a place. */
  const UNPLACED: u64 := 0xFFFF_FFFF_FFFF_FFFF

  // ----- the code's arithmetic

  function AlignAs(input: u32, align: u32): u32
    requires align > 0
  {
    if input % align == 0 then input
    else
      assert input / align + 1 >= 0;
      (input / align + 1) * align % TWO32
  }

  /** The header fields as the code reads them into 32-bit variables. */
  function Size(s: Section): u32 {
    s.size % TWO32
  }

  /** An alignment of 0 stands for 1. */
  function Divisor(secAlign: u32): (a: u32)
    ensures a > 0
  {
    if secAlign == 0 then 1 else secAlign
  }

  function Align(s: Section): (a: u32)
    ensures a > 0
  {
    Divisor(s.align % TWO32)
  }

  // ----- the specification: one pass of bump allocation

  /** The least multiple of a from x on. */
  function AlignUp(x: nat, a: nat): nat
    requires a > 0
  {
    if x % a == 0 then x else x + (a - x % a)
  }

  /** Aligning as the code does, on the low 32 bits with the result cut to 32, or exactly. */
  function Up(wrap: bool, x: nat, a: u32): nat
    requires a > 0
  {
    if wrap then AlignAs(x % TWO32, a) else AlignUp(x, a)
  }

  /** y is the least multiple of a from x on: the one in a stretch of a numbers. */
  predicate LeastMultiple(y: nat, x: nat, a: nat)
    requires a > 0
  {
    x <= y < x + a && y % a == 0
  }

  lemma MultipleMod(k: int, a: nat)
    requires a > 0
    ensures k * a % a == 0
  {
    var q, r := k * a / a, k * a % a;
    assert (k - q) * a == r;
    if k - q >= 1 {
      MulLe(1, k - q, a);
    } else if k - q <= -1 {
      MulLe(k - q, -1, a);
    }
  }

  /** x is q whole a's and a rest, and so is its rounding up. */
  lemma UpBounds(x: nat, a: u32)
    requires a > 0
    ensures LeastMultiple(Up(false, x, a), x, a)
    ensures Up(false, x, a) == if x % a == 0 then x else (x / a + 1) * a
  {
    var q, r := x / a, x % a;
    assert x == q * a + r;
    assert (q + 1) * a == q * a + a;
    MultipleMod(q + 1, a);
  }

  /** 32-bit alignment is exact when the result fits. */
  lemma WrapExactAt(x: nat, a: u32)
    requires a > 0 && Up(false, x, a) < TWO32
    ensures Up(true, x, a) == Up(false, x, a)
  {
    UpBounds(x, a);
    var up := (x / a + 1) * a;
    hide AlignUp;
    assert x % TWO32 == x;
    if x % a != 0 {
      assert AlignAs(x, a) == up % TWO32;
    }
  }

  lemma AlignExact(x: nat, a: u32)
    requires a > 0
    ensures LeastMultiple(AlignUp(x, a), x, a)
    ensures Up(true, x, a) == AlignUp(x, a) <==> AlignUp(x, a) < TWO32
  {
    UpBounds(x, a);
    if AlignUp(x, a) < TWO32 {
      WrapExactAt(x, a);
    }
  }

  datatype Tally = Tally(vsec: seq<nat>, total: nat)

  predicate Indices(order: seq<nat>, n: nat) {
    forall k :: 0 <= k < |order| ==> order[k] < n
  }

  /** Places the sections of order one after the other. */
  function PlaceAll(wrap: bool, secs: seq<Section>, order: seq<nat>, st: Tally): (r: Tally)
    requires Indices(order, |secs|) && |st.vsec| == |secs|
    ensures |r.vsec| == |secs|
    decreases |order|
  {
    if order == [] then st
    else
      var n := |order| - 1;
      var p := PlaceAll(wrap, secs, order[..n], st);
      var at := Up(wrap, p.total, Align(secs[order[n]]));
      Tally(p.vsec[order[n] := at], at + Size(secs[order[n]]))
  }

  /** Executable; read-only; read-only after init; writable; not loaded. */
  function Class(flags: set<Flag>): nat {
    if Alloc !in flags then 4
    else if ExecInstr in flags then 0
    else if Write !in flags then 1
    else if RoAfterInit in flags then 2
    else 3
  }

  /** The sections of one class below n, in section order. */
  function Members(secs: seq<Section>, c: nat, n: nat): (order: seq<nat>)
    requires n <= |secs|
    ensures Indices(order, n)
  {
    if n == 0 then []
    else if Class(secs[n - 1].flags) == c then Members(secs, c, n - 1) + [n - 1]
    else Members(secs, c, n - 1)
  }

  datatype Result = Result(vsec: seq<nat>, text: nat, ro: nat, roAfterInit: nat, total: nat)

  /** The whole layout: the classes in order, with a page boundary before the writable one. */
  function LayoutOf(wrap: bool, secs: seq<Section>): (r: Result)
    ensures |r.vsec| == |secs|
  {
    var n := |secs|;
    var exec := PlaceAll(wrap, secs, Members(secs, 0, n), Tally(seq(n, _ => UNPLACED), 0));
    var ro := PlaceAll(wrap, secs, Members(secs, 1, n), exec);
    var rai := PlaceAll(wrap, secs, Members(secs, 2, n), ro);
    var boundary := Up(wrap, rai.total, 4096);
    var rw := PlaceAll(wrap, secs, Members(secs, 3, n), rai.(total := boundary));
    Result(rw.vsec, exec.total, ro.total, boundary, rw.total)
  }

  // ----- the code: five rows of masks over all sections

  /** Flags a section must have, and must not have, to be placed in a row. */
  function Masks(m: nat): (set<Flag>, set<Flag>)
    requires m < 5
  {
    match m
    case 0 => ({ExecInstr, Alloc}, {})
    case 1 => ({Alloc}, {Write})
    case 2 => ({RoAfterInit, Alloc}, {})
    case 3 => ({Write, Alloc}, {})
    case _ => ({Alloc}, {})
  }

  predicate Matches(flags: set<Flag>, m: nat)
    requires m < 5
  {
    flags * Masks(m).0 == Masks(m).0 && flags * Masks(m).1 == {}
  }

  /** Among the sections that no earlier row took, a row takes its class; the fifth takes none. */
  lemma RowIsClass(flags: set<Flag>, m: nat)
    requires m < 5
    ensures Matches(flags, m) && Class(flags) >= m <==> Class(flags) == m && m < 4
  {
    assert flags * {ExecInstr, Alloc} == {ExecInstr, Alloc} <==> ExecInstr in flags && Alloc in flags;
    assert flags * {Alloc} == {Alloc} <==> Alloc in flags;
    assert flags * {Write} == {} <==> Write !in flags by {
      assert Write in flags <==> Write in flags * {Write};
    }
    assert flags * {RoAfterInit, Alloc} == {RoAfterInit, Alloc} <==> RoAfterInit in flags && Alloc in flags;
    assert flags * {Write, Alloc} == {Write, Alloc} <==> Write in flags && Alloc in flags;
  }

  lemma PlaceAllSnoc(wrap: bool, secs: seq<Section>, order: seq<nat>, i: nat, st: Tally)
    requires Indices(order, |secs|) && |st.vsec| == |secs| && i < |secs|
    ensures Indices(order + [i], |secs|)
    ensures var p := PlaceAll(wrap, secs, order, st); var at := Up(wrap, p.total, Align(secs[i]));
            PlaceAll(wrap, secs, order + [i], st) == Tally(p.vsec[i := at], at + Size(secs[i]))
  {
    assert (order + [i])[..|order|] == order;
  }

  lemma UpIs32(x: nat, a: u32)
    requires a > 0
    ensures Up(true, x, a) < TWO32
  {
  }

  /** Only the sections of the order get a new place, always a 32-bit one. */
  lemma {:induction false} PlacedOnly(wrap: bool, secs: seq<Section>, order: seq<nat>, st: Tally)
    requires Indices(order, |secs|) && |st.vsec| == |secs|
    ensures forall i :: 0 <= i < |secs| && i !in order ==> PlaceAll(wrap, secs, order, st).vsec[i] == st.vsec[i]
    ensures wrap ==> forall i :: 0 <= i < |secs| && i in order ==> PlaceAll(wrap, secs, order, st).vsec[i] < TWO32
    decreases |order|
  {
    hide Up;
    if order == [] {
    } else {
      var n := |order| - 1;
      PlacedOnly(wrap, secs, order[..n], st);
      var p := PlaceAll(wrap, secs, order[..n], st);
      if wrap { UpIs32(p.total, Align(secs[order[n]])); }
      assert order == order[..n] + [order[n]];
    }
  }

  lemma {:induction false} MembersAre(secs: seq<Section>, c: nat, n: nat)
    requires n <= |secs|
    ensures forall i: nat :: i in Members(secs, c, n) <==> i < n && Class(secs[i].flags) == c
  {
    if n == 0 {
    } else {
      MembersAre(secs, c, n - 1);
    }
  }

  function RowMembers(secs: seq<Section>, m: nat, n: nat): (order: seq<nat>)
    requires n <= |secs|
    ensures Indices(order, n)
  {
    if m < 4 then Members(secs, m, n) else []
  }

  lemma PlaceAllNone(wrap: bool, secs: seq<Section>, st: Tally)
    requires |st.vsec| == |secs|
    ensures PlaceAll(wrap, secs, [], st) == st
  {
  }

  class ModuleLayout {
    var vsec: seq<nat>
    var totalSize: nat
    var textSize: nat
    var roSize: nat
    var roAfterInitSize: nat

    constructor ()
      ensures totalSize == 0 && textSize == 0 && roSize == 0 && roAfterInitSize == 0
    {
      vsec, totalSize, textSize, roSize, roAfterInitSize := [], 0, 0, 0, 0;
    }

    ghost function State(): Tally
      reads this
    {
      Tally(vsec, totalSize)
    }

    ghost predicate Is(r: Result)
      reads this
    {
      vsec == r.vsec && textSize == r.text && roSize == r.ro && roAfterInitSize == r.roAfterInit
      && totalSize == r.total
    }

    /** get_offset: aligns the running total in 32 bits and adds the size in 64. The offset is the
        least multiple of the alignment from the total on exactly when that is below 2^32. */
    method GetOffset(secAlign: u32, secSize: u32) returns (ret: nat)
      modifies `totalSize
      ensures ret == Up(true, old(totalSize), Divisor(secAlign)) && totalSize == ret + secSize
      ensures LeastMultiple(AlignUp(old(totalSize), Divisor(secAlign)), old(totalSize), Divisor(secAlign))
      ensures ret == AlignUp(old(totalSize), Divisor(secAlign))
              <==> AlignUp(old(totalSize), Divisor(secAlign)) < TWO32
    {
      AlignExact(totalSize, if secAlign != 0 then secAlign else 1);
      ret := AlignAs(totalSize % TWO32, if secAlign != 0 then secAlign else 1);
      totalSize := ret + secSize;
    }

    /** One row of masks over all sections. */
    method PlaceRow(secs: seq<Section>, m: nat)
      requires m < 5 && |vsec| == |secs|
      requires forall i :: 0 <= i < |secs| ==> (vsec[i] == UNPLACED <==> Class(secs[i].flags) >= m)
      modifies `vsec, `totalSize
      ensures State() == PlaceAll(true, secs, RowMembers(secs, m, |secs|), old(State()))
      ensures |vsec| == |secs|
      ensures forall i :: 0 <= i < |secs| ==>
                (vsec[i] == UNPLACED <==> Class(secs[i].flags) >= (if m < 4 then m + 1 else m))
    {
      hide PlaceAll, Matches, Class, Up, AlignAs;
      ghost var st := State();
      PlaceAllNone(true, secs, st);
      for i := 0 to |secs|
        invariant |vsec| == |secs|
        invariant State() == PlaceAll(true, secs, RowMembers(secs, m, i), st)
        invariant forall j :: 0 <= j < |secs| ==>
                    (vsec[j] == UNPLACED <==>
                       Class(secs[j].flags) >= m && !(j < i && Class(secs[j].flags) == m && m < 4))
      {
        RowIsClass(secs[i].flags, m);
        PlaceAllSnoc(true, secs, RowMembers(secs, m, i), i, st);
        if !Matches(secs[i].flags, m) || vsec[i] != UNPLACED {
          continue;
        }
        UpIs32(totalSize, Align(secs[i]));
        var offset := GetOffset(secs[i].align % TWO32, secs[i].size % TWO32);
        vsec := vsec[i := offset];
      }
    }

    method LayoutSections(secs: seq<Section>)
      requires totalSize == 0
      modifies this
      ensures Is(LayoutOf(true, secs))
    {
      vsec := seq(|secs|, _ => UNPLACED);
      for m := 0 to 5
        invariant |vsec| == |secs|
        invariant forall i :: 0 <= i < |secs| ==>
                    (vsec[i] == UNPLACED <==> Class(secs[i].flags) >= (if m < 4 then m else 4))
        invariant RowsDone(secs, m)
      {
        PlaceRow(secs, m);
        match m {
          case 0 => textSize := totalSize;
          case 1 => roSize := totalSize;
          case 2 =>
            totalSize := AlignAs(totalSize % TWO32, 4096);
            roAfterInitSize := totalSize;
          case _ =>
        }
      }
    }

    /** What m rows have done. */
    ghost predicate RowsDone(secs: seq<Section>, m: nat)
      reads this
    {
      var n := |secs|;
      var t0 := PlaceAll(true, secs, Members(secs, 0, n), Tally(seq(n, _ => UNPLACED), 0));
      var t1 := PlaceAll(true, secs, Members(secs, 1, n), t0);
      var t2 := PlaceAll(true, secs, Members(secs, 2, n), t1);
      if m == 0 then State() == Tally(seq(n, _ => UNPLACED), 0)
      else if m == 1 then State() == t0 && textSize == t0.total
      else if m == 2 then State() == t1 && textSize == t0.total && roSize == t1.total
      else if m == 3 then
        && textSize == t0.total && roSize == t1.total && roAfterInitSize == Up(true, t2.total, 4096)
        && State() == t2.(total := roAfterInitSize)
      else Is(LayoutOf(true, secs))
    }
  }
}
