/** The layout the 32-bit code computes is safe exactly when it is the exact one. */
module LayoutExact {
  import opened Bits
  import opened Insn
  import opened Elf
  import opened Layout
  import opened LayoutSafety

  /** Loaded sections are aligned, inside the image and pairwise disjoint. */
  ghost predicate Safe(secs: seq<Section>, vsec: seq<nat>, total: nat)
    requires |vsec| == |secs|
  {
    && (forall i :: 0 <= i < |secs| && Class(secs[i].flags) < 4 ==>
         AlignedAt(secs[i], vsec[i]) && vsec[i] + Size(secs[i]) <= total)
    && (forall i, j :: 0 <= i < j < |secs| && Class(secs[i].flags) < 4 && Class(secs[j].flags) < 4 ==>
         Separate(secs, vsec, i, j))
  }

  // ----- one order of sections, placed with wrap-around

  /** Section i of an order was placed aligned, and, if it is not empty, below hi. */
  predicate WellPlaced(secs: seq<Section>, vsec: seq<nat>, i: nat, hi: nat)
    requires i < |secs| == |vsec|
  {
    vsec[i] % Align(secs[i]) == 0 && (Size(secs[i]) > 0 ==> vsec[i] + Size(secs[i]) <= hi)
  }

  /** All sections of the order are, and no two that are not empty overlap. */
  ghost predicate OrderSafe(secs: seq<Section>, order: seq<nat>, r: Tally)
    requires Indices(order, |secs|) && |r.vsec| == |secs|
  {
    && (forall k :: 0 <= k < |order| ==> WellPlaced(secs, r.vsec, order[k], r.total))
    && (forall k, l :: 0 <= k < l < |order| && Size(secs[order[k]]) > 0 && Size(secs[order[l]]) > 0 ==>
         Separate(secs, r.vsec, order[k], order[l]))
  }

  lemma UpOfZero(a: u32)
    requires a > 0
    ensures Up(true, 0, a) == 0
  {
  }

  /** From a total of 0, the total is 0 in the end or a section that is not empty lies at 0. */
  lemma {:induction false} FromZero(secs: seq<Section>, order: seq<nat>, st: Tally)
    requires Indices(order, |secs|) && |st.vsec| == |secs| && Distinct(order) && st.total == 0
    ensures var r := PlaceAll(true, secs, order, st);
            r.total == 0
            || exists k :: 0 <= k < |order| && r.vsec[order[k]] == 0 && Size(secs[order[k]]) > 0
    decreases |order|
  {
    hide Up, Size, Align;
    if order == [] {
    } else {
      var n := |order| - 1;
      var p, r := PlaceAll(true, secs, order[..n], st), PlaceAll(true, secs, order, st);
      FromZero(secs, order[..n], st);
      if p.total == 0 {
        UpOfZero(Align(secs[order[n]]));
        assert r.vsec[order[n]] == 0;
      } else {
        var k :| 0 <= k < n && p.vsec[order[..n][k]] == 0 && Size(secs[order[..n][k]]) > 0;
        assert r.vsec[order[k]] == 0;
      }
    }
  }

  /** A prefix of an order leaves its places as the whole order does. */
  lemma PrefixPlaces(secs: seq<Section>, order: seq<nat>, st: Tally, k: nat)
    requires Indices(order, |secs|) && |st.vsec| == |secs| && Distinct(order) && k <= |order|
    ensures var p, r := PlaceAll(true, secs, order[..k], st), PlaceAll(true, secs, order, st);
            && PlaceAll(true, secs, order[k..], p) == r
            && forall j :: 0 <= j < k ==> r.vsec[order[j]] == p.vsec[order[j]]
  {
    hide PlaceAll;
    assert order == order[..k] + order[k..];
    PlaceAppend(true, secs, order[..k], order[k..], st);
    PlacedOnly(true, secs, order[k..], PlaceAll(true, secs, order[..k], st));
    forall j | 0 <= j < k
      ensures order[j] !in order[k..]
    {
    }
  }

  /** The last placement of an order. */
  lemma LastPlaced(secs: seq<Section>, order: seq<nat>, st: Tally)
    requires Indices(order, |secs|) && |st.vsec| == |secs| && order != []
    ensures var r := PlaceAll(true, secs, order, st); var i := order[|order| - 1];
            r.vsec[i] < TWO32 && r.total == r.vsec[i] + Size(secs[i])
  {
    hide Up;
    UpIs32(PlaceAll(true, secs, order[..|order| - 1], st).total, Align(secs[order[|order| - 1]]));
  }

  /** The running total stays a 32-bit number until the last section: what ends beyond that is
      outside the image, or overlaps the last section. */
  lemma TotalBelow(secs: seq<Section>, order: seq<nat>, st: Tally, k: nat)
    requires Indices(order, |secs|) && |st.vsec| == |secs| && Distinct(order) && st.total == 0 && k < |order|
    requires OrderSafe(secs, order, PlaceAll(true, secs, order, st))
    ensures PlaceAll(true, secs, order[..k], st).total < TWO32
  {
    hide PlaceAll, Size, Align, Up;
    if k == 0 {
      PlaceAllNone(true, secs, st);
      assert order[..k] == [];
    } else {
      var r := PlaceAll(true, secs, order, st);
      var last := |order| - 1;
      PrefixPlaces(secs, order, st, k);
      LastPlaced(secs, order, st);
      LastPlaced(secs, order[..k], st);
      assert order[..k][k - 1] == order[k - 1];
      assert WellPlaced(secs, r.vsec, order[k - 1], r.total);
      if Size(secs[order[k - 1]]) > 0 && Size(secs[order[last]]) > 0 {
        assert Separate(secs, r.vsec, order[k - 1], order[last]);
      }
    }
  }

  lemma BelowIsRest(y: nat, a: nat)
    requires y < a && y % a == 0
    ensures y == 0
  {
  }

  /** Where 32-bit alignment goes wrong, an aligned result can only be 0. */
  lemma WrapsToZero(x: nat, a: u32)
    requires a > 0 && x < TWO32 <= Up(false, x, a) && Up(true, x, a) % a == 0
    ensures x > 0 && Up(true, x, a) == 0
  {
    UpBounds(x, a);
    hide AlignUp;
    var up := (x / a + 1) * a;
    assert x % a != 0;
    assert AlignAs(x, a) == up % TWO32;
    assert x % TWO32 == x;
    assert up % TWO32 == up - TWO32 < a;
    BelowIsRest(Up(true, x, a), a);
  }

  lemma IsWellPlaced(secs: seq<Section>, order: seq<nat>, r: Tally, k: nat)
    requires Indices(order, |secs|) && |r.vsec| == |secs| && OrderSafe(secs, order, r) && k < |order|
    ensures WellPlaced(secs, r.vsec, order[k], r.total)
  {
  }

  /** Only one section of a safe order that is not empty lies at 0, and the image is not empty. */
  lemma NoOtherAtZero(secs: seq<Section>, order: seq<nat>, r: Tally, f: nat)
    requires Indices(order, |secs|) && |r.vsec| == |secs| && OrderSafe(secs, order, r) && f < |order|
    requires r.vsec[order[f]] == 0 && Size(secs[order[f]]) > 0
    ensures r.total > 0
    ensures forall k :: 0 <= k < |order| && k != f && Size(secs[order[k]]) > 0 ==> r.vsec[order[k]] > 0
  {
    hide Size, Align;
    IsWellPlaced(secs, order, r, f);
  }

  /** No section of a safe order wraps: it would land on 0, where the first section that is not
      empty lies; and an empty one would start the total over, so that the next does. */
  lemma NoWrap(secs: seq<Section>, order: seq<nat>, st: Tally, k: nat)
    requires Indices(order, |secs|) && |st.vsec| == |secs| && Distinct(order) && st.total == 0 && k < |order|
    requires OrderSafe(secs, order, PlaceAll(true, secs, order, st))
    ensures Up(false, PlaceAll(true, secs, order[..k], st).total, Align(secs[order[k]])) < TWO32
  {
    hide PlaceAll, Size, Align, Up, AlignUp, OrderSafe;
    var r, p := PlaceAll(true, secs, order, st), PlaceAll(true, secs, order[..k], st);
    if Up(false, p.total, Align(secs[order[k]])) >= TWO32 {
      TotalBelow(secs, order, st, k);
      PrefixPlaces(secs, order, st, k);
      PrefixPlaces(secs, order, st, k + 1);
      var q := PlaceAll(true, secs, order[..k + 1], st);
      assert order[..k + 1] == order[..k] + [order[k]];
      PlaceAllSnoc(true, secs, order[..k], order[k], st);
      IsWellPlaced(secs, order, r, k);
      WrapsToZero(p.total, Align(secs[order[k]]));
      FromZero(secs, order[..k], st);
      var f :| 0 <= f < k && p.vsec[order[..k][f]] == 0 && Size(secs[order[..k][f]]) > 0;
      NoOtherAtZero(secs, order, r, f);
      if q.total == 0 {
        FromZero(secs, order[k + 1..], q);
      }
    }
  }

  lemma {:induction false} SafeIsSmall(secs: seq<Section>, order: seq<nat>, st: Tally, k: nat)
    requires Indices(order, |secs|) && |st.vsec| == |secs| && Distinct(order) && st.total == 0 && k <= |order|
    requires OrderSafe(secs, order, PlaceAll(true, secs, order, st))
    ensures Small(secs, order[..k], st)
  {
    hide Up, OrderSafe, PlaceAll;
    if k == 0 {
    } else {
      SafeIsSmall(secs, order, st, k - 1);
      NoWrap(secs, order, st, k - 1);
      SmallIsExact(secs, order[..k - 1], st);
      assert order[..k][..k - 1] == order[..k - 1];
    }
  }

  // ----- the whole layout as one order: the page boundary is an empty section

  const BOUNDARY := Section("", NOBITS, {}, 4096, 0, [], 0, [])

  lemma {:induction false} WithBoundary(wrap: bool, secs: seq<Section>, order: seq<nat>, st: Tally, u: nat)
    requires Indices(order, |secs|) && |st.vsec| == |secs|
    ensures Indices(order, |secs + [BOUNDARY]|)
    ensures var r := PlaceAll(wrap, secs, order, st);
            PlaceAll(wrap, secs + [BOUNDARY], order, Tally(st.vsec + [u], st.total)) == Tally(r.vsec + [u], r.total)
    decreases |order|
  {
    hide Up, Size, Align;
    if order == [] {
    } else {
      WithBoundary(wrap, secs, order[..|order| - 1], st, u);
    }
  }

  /** The classes in order, with the boundary before the writable one. */
  function WholeOrder(secs: seq<Section>): (order: seq<nat>)
    ensures Indices(order, |secs| + 1)
  {
    var n := |secs|;
    Members(secs, 0, n) + Members(secs, 1, n) + Members(secs, 2, n) + [n] + Members(secs, 3, n)
  }

  function Blank(n: nat): Tally {
    Tally(seq(n, _ => UNPLACED), 0)
  }

  lemma LayoutIsOrder(wrap: bool, secs: seq<Section>)
    ensures var r := LayoutOf(wrap, secs);
            var q := PlaceAll(wrap, secs + [BOUNDARY], WholeOrder(secs), Blank(|secs| + 1));
            q.vsec == r.vsec + [r.roAfterInit] && q.total == r.total
  {
    hide PlaceAll, Members, Up, LayoutOf;
    var n, all := |secs|, secs + [BOUNDARY];
    var early := Members(secs, 0, n) + Members(secs, 1, n) + Members(secs, 2, n);
    var late := Members(secs, 3, n);
    OnePass(wrap, secs);
    var p := PlaceAll(wrap, secs, early, Blank(n));
    var b := Up(wrap, p.total, 4096);
    WithBoundary(wrap, secs, early, Blank(n), UNPLACED);
    assert Blank(n).vsec + [UNPLACED] == Blank(n + 1).vsec;
    PlaceAllSnoc(wrap, all, early, n, Blank(n + 1));
    assert (p.vsec + [UNPLACED])[n := b] == p.vsec + [b];
    WithBoundary(wrap, secs, late, p.(total := b), b);
    PlaceAppend(wrap, all, early + [n], late, Blank(n + 1));
  }

  lemma DistinctAppend(a: seq<nat>, b: seq<nat>)
    requires Distinct(a) && Distinct(b) && forall i :: i in a ==> i !in b
    ensures Distinct(a + b)
  {
    forall j, k | 0 <= j < k < |a + b|
      ensures (a + b)[j] != (a + b)[k]
    {
      if j < |a| <= k {
        assert (a + b)[j] in a && (a + b)[k] in b;
      }
    }
  }

  lemma WholeOrderIs(secs: seq<Section>)
    ensures Distinct(WholeOrder(secs))
    ensures forall k :: 0 <= k < |WholeOrder(secs)| ==>
              WholeOrder(secs)[k] == |secs|
              || (WholeOrder(secs)[k] < |secs| && Class(secs[WholeOrder(secs)[k]].flags) < 4)
  {
    hide Members, Class;
    var n := |secs|;
    var m0, m1, m2, m3 := Members(secs, 0, n), Members(secs, 1, n), Members(secs, 2, n), Members(secs, 3, n);
    MembersAre(secs, 0, n);
    MembersAre(secs, 1, n);
    MembersAre(secs, 2, n);
    MembersAre(secs, 3, n);
    MembersDistinct(secs, 0, n);
    MembersDistinct(secs, 1, n);
    MembersDistinct(secs, 2, n);
    MembersDistinct(secs, 3, n);
    DistinctAppend(m0, m1);
    DistinctAppend(m0 + m1, m2);
    DistinctAppend(m0 + m1 + m2, [n]);
    DistinctAppend(m0 + m1 + m2 + [n], m3);
    forall i | i in WholeOrder(secs)
      ensures i == n || (i < n && Class(secs[i].flags) < 4)
    {
    }
  }

  /** The boundary is a multiple of the page size even where it wraps. */
  lemma BoundaryAligned(x: nat)
    ensures Up(true, x, 4096) % 4096 == 0
  {
  }

  lemma BoundaryIs(secs: seq<Section>)
    ensures LayoutOf(true, secs).roAfterInit % 4096 == 0
  {
    hide PlaceAll, Members, Up;
    var n := |secs|;
    var exec := PlaceAll(true, secs, Members(secs, 0, n), Blank(n));
    var ro := PlaceAll(true, secs, Members(secs, 1, n), exec);
    BoundaryAligned(PlaceAll(true, secs, Members(secs, 2, n), ro).total);
  }

  lemma KeepsPlace(secs: seq<Section>, r: Result, i: nat)
    requires |r.vsec| == |secs| && Safe(secs, r.vsec, r.total) && r.roAfterInit % 4096 == 0
    requires i == |secs| || (i < |secs| && Class(secs[i].flags) < 4)
    ensures WellPlaced(secs + [BOUNDARY], r.vsec + [r.roAfterInit], i, r.total)
  {
    hide Class;
  }

  lemma KeepsApart(secs: seq<Section>, r: Result, i: nat, j: nat)
    requires |r.vsec| == |secs| && Safe(secs, r.vsec, r.total)
    requires i < |secs| && j < |secs| && i != j && Class(secs[i].flags) < 4 && Class(secs[j].flags) < 4
    ensures Separate(secs + [BOUNDARY], r.vsec + [r.roAfterInit], i, j)
  {
    hide Class, Size, Align;
    assert Separate(secs, r.vsec, if i < j then i else j, if i < j then j else i);
  }

  lemma EmptyBoundary()
    ensures Size(BOUNDARY) == 0
  {
  }

  /** A safe layout, with the boundary as a section, is a safe order. */
  lemma KeepsSafe(secs: seq<Section>, r: Result, order: seq<nat>, q: Tally)
    requires |r.vsec| == |secs| && Safe(secs, r.vsec, r.total) && r.roAfterInit % 4096 == 0
    requires Indices(order, |secs| + 1) && Distinct(order)
    requires forall k :: 0 <= k < |order| ==>
               order[k] == |secs| || (order[k] < |secs| && Class(secs[order[k]].flags) < 4)
    requires q == Tally(r.vsec + [r.roAfterInit], r.total)
    ensures OrderSafe(secs + [BOUNDARY], order, q)
  {
    hide Align, Size, Class, Safe, WellPlaced, Separate;
    var all := secs + [BOUNDARY];
    forall k | 0 <= k < |order|
      ensures WellPlaced(all, q.vsec, order[k], q.total)
    {
      KeepsPlace(secs, r, order[k]);
    }
    forall k, l | 0 <= k < l < |order| && Size(all[order[k]]) > 0 && Size(all[order[l]]) > 0
      ensures Separate(all, q.vsec, order[k], order[l])
    {
      assert Size(BOUNDARY) == 0 by { EmptyBoundary(); }
      KeepsApart(secs, r, order[k], order[l]);
    }
  }

  lemma FitsIsSafe(secs: seq<Section>)
    requires Fits32(secs)
    ensures var r := LayoutOf(true, secs); Safe(secs, r.vsec, r.total)
  {
    hide LayoutOf, Align, Size, Class, Separate, Total;
    LayoutSafe(secs);
  }

  /** For every list of headers: the sections are aligned, disjoint and inside the image exactly
      when all exact places and the exact boundary are 32-bit numbers. */
  lemma SafeExactly(secs: seq<Section>)
    ensures var r := LayoutOf(true, secs); Safe(secs, r.vsec, r.total) <==> Fits32(secs)
  {
    hide PlaceAll, LayoutOf, WholeOrder, Align, Size, Class, OrderSafe, Small, Separate, Total, Distinct, Safe;
    var r := LayoutOf(true, secs);
    if Fits32(secs) {
      FitsIsSafe(secs);
    }
    if Safe(secs, r.vsec, r.total) {
      var order, all := WholeOrder(secs), secs + [BOUNDARY];
      WholeOrderIs(secs);
      LayoutIsOrder(true, secs);
      BoundaryIs(secs);
      KeepsSafe(secs, r, order, PlaceAll(true, all, order, Blank(|secs| + 1)));
      SafeIsSmall(all, order, Blank(|secs| + 1), |order|);
      assert order[..|order|] == order;
      SmallIsExact(all, order, Blank(|secs| + 1));
      LayoutIsOrder(false, secs);
      var e := LayoutOf(false, secs);
      assert r.vsec == (r.vsec + [r.roAfterInit])[..|secs|] == e.vsec;
      assert r.roAfterInit == (r.vsec + [r.roAfterInit])[|secs|] == e.roAfterInit;
      WrappedIs32(secs);
    }
  }
}
