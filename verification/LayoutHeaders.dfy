/** The layout in the terms of the section headers alone: what lies before what, how each section is
    aligned, and that no byte is wasted. */
module LayoutHeaders {
  import opened Bits
  import opened Insn
  import opened Elf
  import opened Layout
  import opened LayoutSafety

  // ----- one pass is tight

  predicate EndsAt(secs: seq<Section>, vsec: seq<nat>, j: nat, e: nat)
    requires |vsec| == |secs|
  {
    j < |secs| && e == vsec[j] + Size(secs[j])
  }

  /** Section i lies less than one alignment past e. */
  predicate JustPast(secs: seq<Section>, vsec: seq<nat>, i: nat, e: nat)
    requires i < |secs| == |vsec|
  {
    e <= vsec[i] < e + Align(secs[i])
  }

  lemma {:induction false} TightOrder(secs: seq<Section>, order: seq<nat>, st: Tally)
    requires Indices(order, |secs|) && |st.vsec| == |secs| && Distinct(order)
    ensures var r := PlaceAll(false, secs, order, st);
            && (if order == [] then r.total == st.total else EndsAt(secs, r.vsec, order[|order| - 1], r.total))
            && (order != [] ==> JustPast(secs, r.vsec, order[0], st.total))
            && forall k :: 0 < k < |order| ==>
                 JustPast(secs, r.vsec, order[k], r.vsec[order[k - 1]] + Size(secs[order[k - 1]]))
    decreases |order|
  {
    hide Size, Align, PlaceAll;
    if order == [] {
      PlaceNone(secs, st);
    } else {
      var n := |order| - 1;
      TightOrder(secs, order[..n], st);
      PlaceLast(secs, order, st);
      if n == 0 {
        assert order[..n] == [];
      } else {
        assert order[..n][n - 1] == order[n - 1];
      }
      assert forall k :: 0 <= k < n ==> order[..n][k] == order[k] != order[n];
    }
  }

  /** Section i of its class follows closely an earlier one of the class, or where the class starts. */
  ghost predicate Follows(secs: seq<Section>, vsec: seq<nat>, i: nat, start: nat)
    requires i < |secs| == |vsec|
  {
    JustPast(secs, vsec, i, start)
    || exists j :: 0 <= j < i && Class(secs[j].flags) == Class(secs[i].flags)
         && JustPast(secs, vsec, i, vsec[j] + Size(secs[j]))
  }

  /** A class from start on ends at end, with its last section or, if it has none, where it starts. */
  ghost predicate Closes(secs: seq<Section>, vsec: seq<nat>, c: nat, start: nat, end: nat)
    requires |vsec| == |secs|
  {
    end == start || exists j :: 0 <= j < |secs| && Class(secs[j].flags) == c && EndsAt(secs, vsec, j, end)
  }

  /** Sections of one class lie in the order of their headers. */
  ghost predicate InOrder(secs: seq<Section>, vsec: seq<nat>, c: nat)
    requires |vsec| == |secs|
  {
    forall i, j :: 0 <= i < j < |secs| && Class(secs[i].flags) == c && Class(secs[j].flags) == c ==>
      vsec[i] + Size(secs[i]) <= vsec[j]
  }

  lemma {:induction false} MembersAscend(secs: seq<Section>, c: nat, n: nat)
    requires n <= |secs|
    ensures forall k, l :: 0 <= k < l < |Members(secs, c, n)| ==> Members(secs, c, n)[k] < Members(secs, c, n)[l]
  {
    if n == 0 {
    } else {
      MembersAscend(secs, c, n - 1);
    }
  }

  lemma OrderFollows(secs: seq<Section>, c: nat, order: seq<nat>, vsec: seq<nat>, start: nat, i: nat)
    requires |vsec| == |secs| && Indices(order, |secs|) && i in order
    requires forall j :: j in order ==> Class(secs[j].flags) == c
    requires forall k, l :: 0 <= k < l < |order| ==> order[k] < order[l]
    requires JustPast(secs, vsec, order[0], start)
    requires forall k :: 0 < k < |order| ==>
               JustPast(secs, vsec, order[k], vsec[order[k - 1]] + Size(secs[order[k - 1]]))
    ensures Follows(secs, vsec, i, start)
  {
    hide Class, Size, Align, JustPast;
    var k :| 0 <= k < |order| && order[k] == i;
    if k > 0 {
      assert order[k - 1] in order;
    }
  }

  lemma PassInOrder(secs: seq<Section>, c: nat, st: Tally)
    requires |st.vsec| == |secs|
    ensures InOrder(secs, PlaceAll(false, secs, Members(secs, c, |secs|), st).vsec, c)
  {
    hide PlaceAll, Members, Class, Size, Align;
    var order := Members(secs, c, |secs|);
    MembersAre(secs, c, |secs|);
    MembersDistinct(secs, c, |secs|);
    MembersAscend(secs, c, |secs|);
    forall i, j | 0 <= i < j < |secs| && Class(secs[i].flags) == c && Class(secs[j].flags) == c
      ensures var v := PlaceAll(false, secs, order, st).vsec; v[i] + Size(secs[i]) <= v[j]
    {
      assert i in order && j in order;
      var k :| 0 <= k < |order| && order[k] == i;
      var l :| 0 <= l < |order| && order[l] == j;
      PackedInOrder(secs, order, st, k, l);
    }
  }

  lemma TightPass(secs: seq<Section>, c: nat, st: Tally)
    requires |st.vsec| == |secs|
    ensures var r := PlaceAll(false, secs, Members(secs, c, |secs|), st);
            && Closes(secs, r.vsec, c, st.total, r.total)
            && (forall i :: 0 <= i < |secs| && Class(secs[i].flags) == c ==> Follows(secs, r.vsec, i, st.total))
            && InOrder(secs, r.vsec, c)
  {
    hide PlaceAll, Members, Class, Size, Align, Follows, InOrder, JustPast, Distinct;
    var order := Members(secs, c, |secs|);
    var r := PlaceAll(false, secs, order, st);
    PassInOrder(secs, c, st);
    MembersAre(secs, c, |secs|);
    MembersDistinct(secs, c, |secs|);
    MembersAscend(secs, c, |secs|);
    TightOrder(secs, order, st);
    if order != [] {
      assert order[|order| - 1] in order;
    }
    forall i | 0 <= i < |secs| && Class(secs[i].flags) == c
      ensures Follows(secs, r.vsec, i, st.total)
    {
      OrderFollows(secs, c, order, r.vsec, st.total, i);
    }
  }

  lemma KeepTight(secs: seq<Section>, c: nat, v: seq<nat>, v': seq<nat>, lo: nat, hi: nat)
    requires |v| == |v'| == |secs| && Closes(secs, v, c, lo, hi)
    requires forall i :: 0 <= i < |secs| && Class(secs[i].flags) == c ==> Follows(secs, v, i, lo)
    requires InOrder(secs, v, c)
    requires forall i :: 0 <= i < |secs| && Class(secs[i].flags) == c ==> v'[i] == v[i]
    ensures Closes(secs, v', c, lo, hi) && InOrder(secs, v', c)
    ensures forall i :: 0 <= i < |secs| && Class(secs[i].flags) == c ==> Follows(secs, v', i, lo)
  {
    hide Class, Size, Align;
  }

  // ----- the whole layout is tight

  lemma TightLayout(secs: seq<Section>)
    ensures var r := LayoutOf(false, secs);
            && Closes(secs, r.vsec, 0, 0, r.text) && Closes(secs, r.vsec, 1, r.text, r.ro)
            && (exists x: nat :: Closes(secs, r.vsec, 2, r.ro, x) && r.roAfterInit == Up(false, x, 4096))
            && Closes(secs, r.vsec, 3, r.roAfterInit, r.total)
            && (forall i :: 0 <= i < |secs| && Class(secs[i].flags) < 4 ==>
                 Follows(secs, r.vsec, i, LayoutSafety.Low(r, Class(secs[i].flags))))
            && forall c :: 0 <= c < 4 ==> InOrder(secs, r.vsec, c)
  {
    hide PlaceAll, Members, Class, Up, Closes, Follows, InOrder;
    var n := |secs|;
    var st := Tally(seq(n, _ => UNPLACED), 0);
    var exec := PlaceAll(false, secs, Members(secs, 0, n), st);
    var ro := PlaceAll(false, secs, Members(secs, 1, n), exec);
    var rai := PlaceAll(false, secs, Members(secs, 2, n), ro);
    var mid := rai.(total := Up(false, rai.total, 4096));
    var rw := PlaceAll(false, secs, Members(secs, 3, n), mid);
    TightPass(secs, 0, st);
    TightPass(secs, 1, exec);
    TightPass(secs, 2, ro);
    TightPass(secs, 3, mid);
    KeptPlaces(secs, 1, exec);
    KeptPlaces(secs, 2, ro);
    KeptPlaces(secs, 3, mid);
    KeepTight(secs, 0, exec.vsec, rw.vsec, 0, exec.total);
    KeepTight(secs, 1, ro.vsec, rw.vsec, exec.total, ro.total);
    KeepTight(secs, 2, rai.vsec, rw.vsec, ro.total, rai.total);
    var r := LayoutOf(false, secs);
    assert r == Result(rw.vsec, exec.total, ro.total, mid.total, rw.total);
    forall i | 0 <= i < n && Class(secs[i].flags) < 4
      ensures Follows(secs, r.vsec, i, LayoutSafety.Low(r, Class(secs[i].flags)))
    {
      assert 0 <= Class(secs[i].flags);
    }
  }

  // ----- in the headers' own terms

  /** Headers whose loaded sections have sizes and alignments that 32 bits hold. */
  predicate Plain(secs: seq<Section>) {
    forall i :: 0 <= i < |secs| && Alloc in secs[i].flags ==> secs[i].size < TWO32 && secs[i].align < TWO32
  }

  /** Loaded section i is laid out before loaded section j: executable ones first, then read-only
      ones, then those written only during initialisation, and in the order of the headers otherwise. */
  predicate Precedes(secs: seq<Section>, i: nat, j: nat)
    requires i < |secs| && j < |secs|
  {
    var f, g := secs[i].flags, secs[j].flags;
    if ExecInstr in f || ExecInstr in g then ExecInstr in f && (ExecInstr in g ==> i < j)
    else if Write !in f || Write !in g then Write !in f && (Write !in g ==> i < j)
    else if RoAfterInit in f || RoAfterInit in g then RoAfterInit in f && (RoAfterInit in g ==> i < j)
    else i < j
  }

  lemma PrecedesByClass(secs: seq<Section>, i: nat, j: nat)
    requires i < |secs| && j < |secs| && Alloc in secs[i].flags && Alloc in secs[j].flags
    ensures Class(secs[i].flags) < 4 && Class(secs[j].flags) < 4
    ensures Precedes(secs, i, j)
       <==> Class(secs[i].flags) < Class(secs[j].flags) || (Class(secs[i].flags) == Class(secs[j].flags) && i < j)
  {
  }

  /** Of two loaded sections, the first ends before the second. */
  predicate EndsBefore(secs: seq<Section>, vsec: seq<nat>, i: nat, j: nat)
    requires |vsec| == |secs| && i < |secs| && j < |secs|
  {
    vsec[i] + secs[i].size <= vsec[j]
  }

  lemma PlainSize(secs: seq<Section>, i: nat)
    requires Plain(secs) && i < |secs| && Alloc in secs[i].flags
    ensures Size(secs[i]) == secs[i].size
    ensures Align(secs[i]) == if secs[i].align > 0 then secs[i].align else 1
  {
  }

  lemma PlainAligned(secs: seq<Section>, i: nat, at: nat)
    requires Plain(secs) && i < |secs| && Alloc in secs[i].flags && secs[i].align > 0 && AlignedAt(secs[i], at)
    ensures at % secs[i].align == 0
  {
    assert secs[i].align % TWO32 == secs[i].align;
  }

  /** Every loaded section is aligned as its header asks. */
  lemma AlignedAsAsked(secs: seq<Section>, i: nat)
    requires Fits32(secs) && Plain(secs) && i < |secs| && Alloc in secs[i].flags && secs[i].align > 0
    ensures LayoutOf(true, secs).vsec[i] % secs[i].align == 0
  {
    hide LayoutOf, Total, Align, Size, Class, Plain, AlignedAt;
    LayoutSafe(secs);
    PrecedesByClass(secs, i, i);
    PlainAligned(secs, i, LayoutOf(true, secs).vsec[i]);
  }

  lemma BetweenClasses(secs: seq<Section>, i: nat, j: nat)
    requires i < |secs| && j < |secs| && Class(secs[i].flags) < Class(secs[j].flags) < 4
    ensures var v := LayoutOf(false, secs).vsec; v[i] + Size(secs[i]) <= v[j]
  {
    hide LayoutOf, Total, Align, Size, Class;
    Regions(secs);
    var r := LayoutOf(false, secs);
    assert ClassPacked(secs, 0, r.vsec, LayoutSafety.Low(r, 0), High(r, 0));
    assert ClassPacked(secs, 1, r.vsec, LayoutSafety.Low(r, 1), High(r, 1));
    assert ClassPacked(secs, 2, r.vsec, LayoutSafety.Low(r, 2), High(r, 2));
    assert ClassPacked(secs, 3, r.vsec, LayoutSafety.Low(r, 3), High(r, 3));
    assert 0 <= Class(secs[i].flags);
  }

  /** Every loaded section lies behind all that precede it. */
  lemma LaidInOrder(secs: seq<Section>, i: nat, j: nat)
    requires Fits32(secs) && Plain(secs) && i < |secs| && j < |secs|
    requires Alloc in secs[i].flags && Alloc in secs[j].flags && Precedes(secs, i, j)
    ensures EndsBefore(secs, LayoutOf(true, secs).vsec, i, j)
  {
    hide LayoutOf, Align, Size, Class, Plain, Precedes, Closes, Follows;
    PlainSize(secs, i);
    PrecedesByClass(secs, i, j);
    FitsIsExact(secs);
    if Class(secs[i].flags) < Class(secs[j].flags) {
      BetweenClasses(secs, i, j);
    } else {
      TightLayout(secs);
      assert InOrder(secs, LayoutOf(true, secs).vsec, Class(secs[i].flags));
    }
  }

  /** e is 0 or the end of a loaded section that precedes section i. */
  ghost predicate EndBefore(secs: seq<Section>, vsec: seq<nat>, i: nat, e: nat)
    requires |vsec| == |secs| && i < |secs|
  {
    e == 0
    || exists j :: 0 <= j < |secs| && Alloc in secs[j].flags && Precedes(secs, j, i) && e == vsec[j] + secs[j].size
  }

  lemma Loaded4(secs: seq<Section>, j: nat)
    requires j < |secs| && Class(secs[j].flags) < 4
    ensures Alloc in secs[j].flags
  {
  }

  /** Where a class starts is 0 or the end of an earlier class's section, or the page boundary. */
  lemma StartsAt(secs: seq<Section>, r: Result, i: nat)
    requires Plain(secs) && i < |secs| == |r.vsec| && Alloc in secs[i].flags && Class(secs[i].flags) < 4
    requires Closes(secs, r.vsec, 0, 0, r.text) && Closes(secs, r.vsec, 1, r.text, r.ro)
    ensures var f := secs[i].flags;
            EndBefore(secs, r.vsec, i, LayoutSafety.Low(r, Class(secs[i].flags)))
            || (Class(f) == 3 && ExecInstr !in f && Write in f && RoAfterInit !in f)
  {
    hide Size, Align, Plain, Precedes;
    forall j | 0 <= j < |secs| && Class(secs[j].flags) < Class(secs[i].flags)
      ensures Alloc in secs[j].flags && Precedes(secs, j, i) && Size(secs[j]) == secs[j].size
    {
      Loaded4(secs, j);
      PlainSize(secs, j);
      PrecedesByClass(secs, j, i);
    }
  }

  /** No space is wasted: a loaded section lies less than its alignment past the end of one that
      precedes it, past 0, or, for those written at run time, past the page boundary. */
  lemma LaidTightly(secs: seq<Section>, i: nat) returns (e: nat)
    requires Fits32(secs) && Plain(secs) && i < |secs| && Alloc in secs[i].flags
    ensures var r := LayoutOf(true, secs); var f := secs[i].flags;
            && (EndBefore(secs, r.vsec, i, e)
                || (e == r.roAfterInit && ExecInstr !in f && Write in f && RoAfterInit !in f))
            && e <= r.vsec[i] < e + if secs[i].align > 0 then secs[i].align else 1
  {
    hide LayoutOf, Total, Align, Size, Class, Plain, Precedes, Closes;
    FitsIsExact(secs);
    TightLayout(secs);
    PlainSize(secs, i);
    PrecedesByClass(secs, i, i);
    var r, c := LayoutOf(true, secs), Class(secs[i].flags);
    if JustPast(secs, r.vsec, i, LayoutSafety.Low(r, c)) {
      e := LayoutSafety.Low(r, c);
      StartsAt(secs, r, i);
    } else {
      var j :| 0 <= j < i && Class(secs[j].flags) == c && JustPast(secs, r.vsec, i, r.vsec[j] + Size(secs[j]));
      e := r.vsec[j] + Size(secs[j]);
      Loaded4(secs, j);
      PlainSize(secs, j);
      PrecedesByClass(secs, j, i);
    }
  }

  /** e is from, or the end of a loaded section whose flags satisfy p. */
  ghost predicate EndAmong(secs: seq<Section>, vsec: seq<nat>, p: set<Flag> -> bool, from: nat, e: nat)
    requires |vsec| == |secs|
  {
    e == from
    || exists j :: 0 <= j < |secs| && Alloc in secs[j].flags && p(secs[j].flags) && e == vsec[j] + secs[j].size
  }

  lemma FlagsOfClass(secs: seq<Section>)
    ensures forall j :: 0 <= j < |secs| ==>
              var f := secs[j].flags;
              && (Class(f) == 0 ==> ExecInstr in f)
              && (Class(f) == 1 ==> ExecInstr !in f && Write !in f)
              && (Class(f) == 2 ==> ExecInstr !in f && Write in f && RoAfterInit in f)
              && (Class(f) == 3 ==> ExecInstr !in f && Write in f && RoAfterInit !in f)
  {
  }

  /** The sizes are tight: text, read-only part and image end where a section of theirs ends, and the
      page boundary is the first one from the end of the sections written only during
      initialisation. */
  lemma SizesTight(secs: seq<Section>) returns (x: nat)
    requires Fits32(secs) && Plain(secs)
    ensures var r := LayoutOf(true, secs);
            && EndAmong(secs, r.vsec, f => ExecInstr in f, 0, r.text)
            && EndAmong(secs, r.vsec, f => ExecInstr !in f && Write !in f, r.text, r.ro)
            && EndAmong(secs, r.vsec, f => ExecInstr !in f && Write in f && RoAfterInit in f, r.ro, x)
            && x <= r.roAfterInit < x + 4096 && r.roAfterInit % 4096 == 0
            && EndAmong(secs, r.vsec, f => ExecInstr !in f && Write in f && RoAfterInit !in f, r.roAfterInit, r.total)
  {
    hide LayoutOf, Align, Size, Class, Plain, Follows, InOrder;
    FitsIsExact(secs);
    TightLayout(secs);
    var r := LayoutOf(true, secs);
    x :| Closes(secs, r.vsec, 2, r.ro, x) && r.roAfterInit == Up(false, x, 4096);
    UpBounds(x, 4096);
    forall j | 0 <= j < |secs| && Class(secs[j].flags) < 4
      ensures Alloc in secs[j].flags && Size(secs[j]) == secs[j].size
    {
      Loaded4(secs, j);
      PlainSize(secs, j);
    }
    FlagsOfClass(secs);
  }
}
