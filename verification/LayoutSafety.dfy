/** What the layout guarantees, and exactly when 32-bit arithmetic delivers it. */
module LayoutSafety {
  import opened Bits
  import opened Elf
  import opened Layout

  predicate Distinct(order: seq<nat>) {
    forall j, k :: 0 <= j < k < |order| ==> order[j] != order[k]
  }

  lemma {:induction false} MembersDistinct(secs: seq<Section>, c: nat, n: nat)
    requires n <= |secs|
    ensures Distinct(Members(secs, c, n))
  {
    if n == 0 {
    } else {
      MembersDistinct(secs, c, n - 1);
      MembersAre(secs, c, n - 1);
    }
  }

  // ----- one pass

  /** Every place given so far is below 2^32. */
  predicate Small(secs: seq<Section>, order: seq<nat>, st: Tally)
    requires Indices(order, |secs|) && |st.vsec| == |secs|
    decreases |order|
  {
    order == [] ||
    var n := |order| - 1;
    && Small(secs, order[..n], st)
    && Up(false, PlaceAll(false, secs, order[..n], st).total, Align(secs[order[n]])) < TWO32
  }

  lemma {:induction false} SmallIsExact(secs: seq<Section>, order: seq<nat>, st: Tally)
    requires Indices(order, |secs|) && |st.vsec| == |secs| && Small(secs, order, st)
    ensures PlaceAll(true, secs, order, st) == PlaceAll(false, secs, order, st)
    decreases |order|
  {
    hide Up;
    if order == [] {
    } else {
      var n := |order| - 1;
      SmallIsExact(secs, order[..n], st);
      WrapExactAt(PlaceAll(false, secs, order[..n], st).total, Align(secs[order[n]]));
    }
  }

  /** With no section twice, small means small places in the end. */
  lemma {:induction false} SmallIsPlaces(secs: seq<Section>, order: seq<nat>, st: Tally)
    requires Indices(order, |secs|) && |st.vsec| == |secs| && Distinct(order)
    ensures Small(secs, order, st)
       <==> forall i :: i in order ==> PlaceAll(false, secs, order, st).vsec[i] < TWO32
    decreases |order|
  {
    hide Up;
    if order == [] {
    } else {
      var n := |order| - 1;
      SmallIsPlaces(secs, order[..n], st);
      assert order == order[..n] + [order[n]];
      assert order[n] !in order[..n];
      assert forall i :: i in order <==> i in order[..n] || i == order[n];
    }
  }

  /** The last placement of a pass. */
  lemma PlaceLast(secs: seq<Section>, order: seq<nat>, st: Tally)
    requires Indices(order, |secs|) && |st.vsec| == |secs| && order != []
    ensures var n := |order| - 1;
            var p, r := PlaceAll(false, secs, order[..n], st), PlaceAll(false, secs, order, st);
            var at := r.vsec[order[n]];
            && r.vsec == p.vsec[order[n] := at] && r.total == at + Size(secs[order[n]])
            && p.total <= at < p.total + Align(secs[order[n]]) && at % Align(secs[order[n]]) == 0
  {
    hide Up;
    var n := |order| - 1;
    UpBounds(PlaceAll(false, secs, order[..n], st).total, Align(secs[order[n]]));
  }

  /** Sizes plus the worst padding of the sections of an order. */
  function Weight(secs: seq<Section>, order: seq<nat>): nat
    requires Indices(order, |secs|)
    decreases |order|
  {
    if order == [] then 0
    else
      var n := |order| - 1;
      Weight(secs, order[..n]) + Size(secs[order[n]]) + (Align(secs[order[n]]) - 1)
  }

  lemma PlaceNone(secs: seq<Section>, st: Tally)
    requires |st.vsec| == |secs|
    ensures PlaceAll(false, secs, [], st) == st && Weight(secs, []) == 0
  {
  }

  /** A pass of exact bump allocation starting at st.total: its sections lie aligned between the
      running totals before and after. */
  lemma {:induction false} PackedInside(secs: seq<Section>, order: seq<nat>, st: Tally)
    requires Indices(order, |secs|) && |st.vsec| == |secs| && Distinct(order)
    ensures var r := PlaceAll(false, secs, order, st);
            && st.total <= r.total
            && forall k :: 0 <= k < |order| ==>
                 && st.total <= r.vsec[order[k]] && r.vsec[order[k]] + Size(secs[order[k]]) <= r.total
                 && r.vsec[order[k]] % Align(secs[order[k]]) == 0
    decreases |order|
  {
    hide Size, Align, PlaceAll;
    if order == [] {
      PlaceNone(secs, st);
    } else {
      var n := |order| - 1;
      PackedInside(secs, order[..n], st);
      PlaceLast(secs, order, st);
      assert forall k :: 0 <= k < n ==> order[..n][k] == order[k] != order[n];
    }
  }

  /** And they follow one another without overlap. */
  lemma {:induction false} PackedInOrder(secs: seq<Section>, order: seq<nat>, st: Tally, k: nat, l: nat)
    requires Indices(order, |secs|) && |st.vsec| == |secs| && Distinct(order) && k < l < |order|
    ensures var r := PlaceAll(false, secs, order, st);
            r.vsec[order[k]] + Size(secs[order[k]]) <= r.vsec[order[l]]
    decreases |order|
  {
    hide Size, Align, PlaceAll;
    var n := |order| - 1;
    PlaceLast(secs, order, st);
    PackedInside(secs, order[..n], st);
    assert order[..n][k] == order[k];
    if l == n {
    } else {
      assert order[..n][l] == order[l];
      PackedInOrder(secs, order[..n], st, k, l);
    }
  }

  lemma {:induction false} PackedWeight(secs: seq<Section>, order: seq<nat>, st: Tally)
    requires Indices(order, |secs|) && |st.vsec| == |secs|
    ensures PlaceAll(false, secs, order, st).total <= st.total + Weight(secs, order)
    decreases |order|
  {
    hide Size, Align, PlaceAll;
    if order == [] {
      PlaceNone(secs, st);
    } else {
      PackedWeight(secs, order[..|order| - 1], st);
      PlaceLast(secs, order, st);
    }
  }

  // ----- the whole layout

  /** The region of each class: text, read-only, read-only after init, and from the boundary on. */
  function Low(r: Result, c: nat): nat {
    if c == 0 then 0 else if c == 1 then r.text else if c == 2 then r.ro else r.roAfterInit
  }

  function High(r: Result, c: nat): nat {
    if c == 0 then r.text else if c == 1 then r.ro else if c == 2 then r.roAfterInit else r.total
  }

  predicate Separate(secs: seq<Section>, vsec: seq<nat>, i: nat, j: nat)
    requires i < |secs| && j < |secs| && |vsec| == |secs|
  {
    vsec[i] + Size(secs[i]) <= vsec[j] || vsec[j] + Size(secs[j]) <= vsec[i]
  }

  /** The sections of one class, as its pass leaves them. */
  ghost predicate ClassPacked(secs: seq<Section>, c: nat, vsec: seq<nat>, lo: nat, hi: nat)
    requires |vsec| == |secs|
  {
    && lo <= hi
    && (forall i :: 0 <= i < |secs| && Class(secs[i].flags) == c ==>
         lo <= vsec[i] && vsec[i] + Size(secs[i]) <= hi && vsec[i] % Align(secs[i]) == 0)
    && (forall i, j :: 0 <= i < j < |secs| && Class(secs[i].flags) == c && Class(secs[j].flags) == c ==>
         Separate(secs, vsec, i, j))
  }

  /** One pass: its class is packed, the places of the other classes stay. */
  lemma ClassPass(secs: seq<Section>, c: nat, st: Tally)
    requires |st.vsec| == |secs|
    ensures var r := PlaceAll(false, secs, Members(secs, c, |secs|), st);
            && ClassPacked(secs, c, r.vsec, st.total, r.total)
            && r.total <= st.total + Weight(secs, Members(secs, c, |secs|))
            && (forall i :: 0 <= i < |secs| && Class(secs[i].flags) != c ==> r.vsec[i] == st.vsec[i])
  {
    hide PlaceAll, Members, Weight, Class;
    var order := Members(secs, c, |secs|);
    var r := PlaceAll(false, secs, order, st);
    MembersAre(secs, c, |secs|);
    MembersDistinct(secs, c, |secs|);
    PackedInside(secs, order, st);
    PackedWeight(secs, order, st);
    PlacedOnly(false, secs, order, st);
    forall i | 0 <= i < |secs| && Class(secs[i].flags) == c
      ensures st.total <= r.vsec[i] && r.vsec[i] + Size(secs[i]) <= r.total && r.vsec[i] % Align(secs[i]) == 0
    {
      assert i in order;
      var k :| 0 <= k < |order| && order[k] == i;
    }
    forall i, j | 0 <= i < j < |secs| && Class(secs[i].flags) == c && Class(secs[j].flags) == c
      ensures Separate(secs, r.vsec, i, j)
    {
      assert i in order && j in order;
      var k :| 0 <= k < |order| && order[k] == i;
      var l :| 0 <= l < |order| && order[l] == j;
      if k < l {
        PackedInOrder(secs, order, st, k, l);
      } else {
        PackedInOrder(secs, order, st, l, k);
      }
    }
  }

  lemma KeepPacked(secs: seq<Section>, c: nat, v: seq<nat>, v': seq<nat>, lo: nat, hi: nat, hi': nat)
    requires |v| == |v'| == |secs| && ClassPacked(secs, c, v, lo, hi) && hi <= hi'
    requires forall i :: 0 <= i < |secs| && Class(secs[i].flags) == c ==> v'[i] == v[i]
    ensures ClassPacked(secs, c, v', lo, hi')
  {
    hide Class;
    forall i, j | 0 <= i < j < |secs| && Class(secs[i].flags) == c && Class(secs[j].flags) == c
      ensures Separate(secs, v', i, j)
    {
      assert Separate(secs, v, i, j);
    }
  }

  /** Sizes plus worst padding of all ALLOC sections below n. */
  function Total(secs: seq<Section>, n: nat): nat
    requires n <= |secs|
  {
    if n == 0 then 0
    else
      var own := if Class(secs[n - 1].flags) < 4 then Size(secs[n - 1]) + (Align(secs[n - 1]) - 1) else 0;
      Total(secs, n - 1) + own
  }

  lemma NoMembers(secs: seq<Section>)
    ensures forall c: nat :: Weight(secs, Members(secs, c, 0)) == 0
  {
  }

  lemma WeightStep(secs: seq<Section>, c: nat, n: nat)
    requires 0 < n <= |secs|
    ensures Weight(secs, Members(secs, c, n)) == Weight(secs, Members(secs, c, n - 1))
              + if Class(secs[n - 1].flags) == c then Size(secs[n - 1]) + (Align(secs[n - 1]) - 1) else 0
  {
    hide Class;
    var order := Members(secs, c, n - 1);
    if Class(secs[n - 1].flags) == c {
      assert Members(secs, c, n)[..|order|] == order;
    }
  }

  lemma {:induction false} TotalByClass(secs: seq<Section>, n: nat)
    requires n <= |secs|
    ensures Total(secs, n) == Weight(secs, Members(secs, 0, n)) + Weight(secs, Members(secs, 1, n))
                            + Weight(secs, Members(secs, 2, n)) + Weight(secs, Members(secs, 3, n))
  {
    hide Weight, Members, Class;
    if n > 0 {
      TotalByClass(secs, n - 1);
      WeightStep(secs, 0, n);
      WeightStep(secs, 1, n);
      WeightStep(secs, 2, n);
      WeightStep(secs, 3, n);
      assert 0 <= Class(secs[n - 1].flags);
    } else {
      NoMembers(secs);
    }
  }

  /** Exact layout: each class packed in its region, the regions in order, sections without ALLOC
      not placed, and the whole no larger than sizes, padding and one page round-up. */
  lemma Regions(secs: seq<Section>)
    ensures var r := LayoutOf(false, secs);
            && (forall c :: 0 <= c < 4 ==> ClassPacked(secs, c, r.vsec, Low(r, c), High(r, c)))
            && (forall i :: 0 <= i < |secs| && Class(secs[i].flags) == 4 ==> r.vsec[i] == UNPLACED)
            && r.roAfterInit % 4096 == 0
            && r.total <= Total(secs, |secs|) + 4095
  {
    hide PlaceAll, Members, Weight, Class, Up, ClassPacked;
    var n := |secs|;
    var st := Tally(seq(n, _ => UNPLACED), 0);
    var exec := PlaceAll(false, secs, Members(secs, 0, n), st);
    var ro := PlaceAll(false, secs, Members(secs, 1, n), exec);
    var rai := PlaceAll(false, secs, Members(secs, 2, n), ro);
    var boundary := Up(false, rai.total, 4096);
    var mid := rai.(total := boundary);
    var rw := PlaceAll(false, secs, Members(secs, 3, n), mid);
    ClassPass(secs, 0, st);
    ClassPass(secs, 1, exec);
    ClassPass(secs, 2, ro);
    ClassPass(secs, 3, mid);
    UpBounds(rai.total, 4096);
    KeepPacked(secs, 0, exec.vsec, rw.vsec, 0, exec.total, exec.total);
    KeepPacked(secs, 1, ro.vsec, rw.vsec, exec.total, ro.total, ro.total);
    KeepPacked(secs, 2, rai.vsec, rw.vsec, ro.total, rai.total, boundary);
    TotalByClass(secs, n);
    var r := LayoutOf(false, secs);
    assert r == Result(rw.vsec, exec.total, ro.total, boundary, rw.total);
  }

  /** Placing two orders one after the other is placing their concatenation. */
  lemma {:induction false} PlaceAppend(wrap: bool, secs: seq<Section>, a: seq<nat>, b: seq<nat>, st: Tally)
    requires Indices(a, |secs|) && Indices(b, |secs|) && |st.vsec| == |secs|
    ensures Indices(a + b, |secs|)
    ensures PlaceAll(wrap, secs, a + b, st) == PlaceAll(wrap, secs, b, PlaceAll(wrap, secs, a, st))
    decreases |b|
  {
    hide Up;
    if b == [] {
      assert a + b == a;
    } else {
      var n := |b| - 1;
      PlaceAppend(wrap, secs, a, b[..n], st);
      assert (a + b)[..|a| + n] == a + b[..n];
    }
  }

  /** The five passes are one pass of bump allocation over the classes in order, cut by the page
      boundary before the writable class. */
  lemma OnePass(wrap: bool, secs: seq<Section>)
    ensures var n := |secs|;
            var early := Members(secs, 0, n) + Members(secs, 1, n) + Members(secs, 2, n);
            Indices(early, n)
            && var p := PlaceAll(wrap, secs, early, Tally(seq(n, _ => UNPLACED), 0));
            var q := PlaceAll(wrap, secs, Members(secs, 3, n), p.(total := Up(wrap, p.total, 4096)));
            var r := LayoutOf(wrap, secs);
            r.vsec == q.vsec && r.total == q.total && r.roAfterInit == Up(wrap, p.total, 4096)
  {
    hide PlaceAll, Members, Up;
    var n := |secs|;
    var st := Tally(seq(n, _ => UNPLACED), 0);
    PlaceAppend(wrap, secs, Members(secs, 0, n), Members(secs, 1, n), st);
    PlaceAppend(wrap, secs, Members(secs, 0, n) + Members(secs, 1, n), Members(secs, 2, n), st);
  }

  // ----- exactly when the 32-bit code computes the exact layout

  /** All places and the page boundary of the exact layout are 32-bit numbers. */
  predicate Fits32(secs: seq<Section>) {
    var r := LayoutOf(false, secs);
    && r.roAfterInit < TWO32
    && forall i :: 0 <= i < |secs| && Class(secs[i].flags) < 4 ==> r.vsec[i] < TWO32
  }

  lemma WrappedIs32(secs: seq<Section>)
    ensures var r := LayoutOf(true, secs);
            && r.roAfterInit < TWO32
            && forall i :: 0 <= i < |secs| && Class(secs[i].flags) < 4 ==> r.vsec[i] < TWO32
  {
    hide PlaceAll, Members, Class, Up;
    var n := |secs|;
    var st := Tally(seq(n, _ => UNPLACED), 0);
    var exec := PlaceAll(true, secs, Members(secs, 0, n), st);
    var ro := PlaceAll(true, secs, Members(secs, 1, n), exec);
    var rai := PlaceAll(true, secs, Members(secs, 2, n), ro);
    var mid := rai.(total := Up(true, rai.total, 4096));
    UpIs32(rai.total, 4096);
    MembersAre(secs, 0, n);
    MembersAre(secs, 1, n);
    MembersAre(secs, 2, n);
    MembersAre(secs, 3, n);
    PlacedOnly(true, secs, Members(secs, 0, n), st);
    PlacedOnly(true, secs, Members(secs, 1, n), exec);
    PlacedOnly(true, secs, Members(secs, 2, n), ro);
    PlacedOnly(true, secs, Members(secs, 3, n), mid);
    assert forall i :: 0 <= i < n ==> 0 <= Class(secs[i].flags);
  }

  lemma KeptPlaces(secs: seq<Section>, c: nat, st: Tally)
    requires |st.vsec| == |secs|
    ensures forall i :: 0 <= i < |secs| && Class(secs[i].flags) != c ==>
              PlaceAll(false, secs, Members(secs, c, |secs|), st).vsec[i] == st.vsec[i]
  {
    hide PlaceAll, Members, Class;
    MembersAre(secs, c, |secs|);
    PlacedOnly(false, secs, Members(secs, c, |secs|), st);
  }

  lemma PassExact(secs: seq<Section>, c: nat, st: Tally)
    requires |st.vsec| == |secs|
    requires forall i :: 0 <= i < |secs| && Class(secs[i].flags) == c ==>
               PlaceAll(false, secs, Members(secs, c, |secs|), st).vsec[i] < TWO32
    ensures PlaceAll(true, secs, Members(secs, c, |secs|), st)
         == PlaceAll(false, secs, Members(secs, c, |secs|), st)
  {
    hide PlaceAll, Members, Class, Small;
    MembersAre(secs, c, |secs|);
    MembersDistinct(secs, c, |secs|);
    SmallIsPlaces(secs, Members(secs, c, |secs|), st);
    SmallIsExact(secs, Members(secs, c, |secs|), st);
  }

  lemma FitsIsExact(secs: seq<Section>)
    requires Fits32(secs)
    ensures LayoutOf(true, secs) == LayoutOf(false, secs)
  {
    hide PlaceAll, Members, Class, Up, Small;
    var n := |secs|;
    var st := Tally(seq(n, _ => UNPLACED), 0);
    var exec := PlaceAll(false, secs, Members(secs, 0, n), st);
    var ro := PlaceAll(false, secs, Members(secs, 1, n), exec);
    var rai := PlaceAll(false, secs, Members(secs, 2, n), ro);
    var mid := rai.(total := Up(false, rai.total, 4096));
    var rw := PlaceAll(false, secs, Members(secs, 3, n), mid);
    KeptPlaces(secs, 1, exec);
    KeptPlaces(secs, 2, ro);
    KeptPlaces(secs, 3, mid);
    PassExact(secs, 0, st);
    PassExact(secs, 1, exec);
    PassExact(secs, 2, ro);
    WrapExactAt(rai.total, 4096);
    PassExact(secs, 3, mid);
  }

  lemma WrapExact(secs: seq<Section>)
    ensures LayoutOf(true, secs) == LayoutOf(false, secs) <==> Fits32(secs)
  {
    if Fits32(secs) {
      FitsIsExact(secs);
    }
    if LayoutOf(true, secs) == LayoutOf(false, secs) {
      WrappedIs32(secs);
    }
  }

  /** Enough for the exact layout: all sizes and paddings, and a page, stay below 2^32. */
  lemma TotalFits(secs: seq<Section>)
    requires Total(secs, |secs|) + 4095 < TWO32
    ensures Fits32(secs)
  {
    hide LayoutOf, Class, Total;
    Regions(secs);
    var r := LayoutOf(false, secs);
    assert ClassPacked(secs, 0, r.vsec, Low(r, 0), High(r, 0));
    assert ClassPacked(secs, 1, r.vsec, Low(r, 1), High(r, 1));
    assert ClassPacked(secs, 2, r.vsec, Low(r, 2), High(r, 2));
    assert ClassPacked(secs, 3, r.vsec, Low(r, 3), High(r, 3));
  }

  /** An offset obeys the header's alignment, as far as 32 bits hold it; 0 asks for none. */
  predicate AlignedAt(s: Section, at: nat) {
    s.align % TWO32 > 0 ==> at % (s.align % TWO32) == 0
  }

  lemma AlignedMeans(s: Section, at: nat)
    ensures AlignedAt(s, at) <==> at % Align(s) == 0
  {
  }

  /** The layout the code computes: ALLOC sections are aligned, disjoint and inside the image;
      the code and read-only classes lie below a page boundary and the writable class above it,
      so protecting [0, ro_after_init_size) covers exactly the former. */
  lemma LayoutSafe(secs: seq<Section>)
    requires Fits32(secs)
    ensures var r := LayoutOf(true, secs);
            && r.text <= r.ro <= r.roAfterInit <= r.total <= Total(secs, |secs|) + 4095
            && r.roAfterInit % 4096 == 0
            && (forall i :: 0 <= i < |secs| && Class(secs[i].flags) < 4 ==>
                 && AlignedAt(secs[i], r.vsec[i])
                 && r.vsec[i] + Size(secs[i]) <= r.total
                 && (Class(secs[i].flags) == 0 ==> r.vsec[i] + Size(secs[i]) <= r.text)
                 && (Class(secs[i].flags) == 1 ==> r.text <= r.vsec[i] && r.vsec[i] + Size(secs[i]) <= r.ro)
                 && (Class(secs[i].flags) < 3 ==> r.vsec[i] + Size(secs[i]) <= r.roAfterInit)
                 && (Class(secs[i].flags) == 3 ==> r.roAfterInit <= r.vsec[i]))
            && (forall i, j :: 0 <= i < j < |secs| && Class(secs[i].flags) < 4 && Class(secs[j].flags) < 4 ==>
                 Separate(secs, r.vsec, i, j))
            && (forall i :: 0 <= i < |secs| && Class(secs[i].flags) == 4 ==> r.vsec[i] == UNPLACED)
  {
    hide LayoutOf, Class, Total, AlignedAt, Align;
    FitsIsExact(secs);
    Regions(secs);
    forall i | 0 <= i < |secs|
      ensures AlignedAt(secs[i], LayoutOf(false, secs).vsec[i])
           <==> LayoutOf(false, secs).vsec[i] % Align(secs[i]) == 0
    {
      AlignedMeans(secs[i], LayoutOf(false, secs).vsec[i]);
    }
    var r := LayoutOf(false, secs);
    assert ClassPacked(secs, 0, r.vsec, Low(r, 0), High(r, 0));
    assert ClassPacked(secs, 1, r.vsec, Low(r, 1), High(r, 1));
    assert ClassPacked(secs, 2, r.vsec, Low(r, 2), High(r, 2));
    assert ClassPacked(secs, 3, r.vsec, Low(r, 3), High(r, 3));
  }

  lemma TwoExecutable(secs: seq<Section>)
    requires |secs| == 2 && Class(secs[0].flags) == 0 && Class(secs[1].flags) == 0
    ensures Members(secs, 0, 2) == [0, 1]
    ensures Members(secs, 1, 2) == Members(secs, 2, 2) == Members(secs, 3, 2) == []
  {
    hide Class;
    assert Members(secs, 0, 1) == [0];
    assert Members(secs, 1, 1) == Members(secs, 2, 1) == Members(secs, 3, 1) == [];
  }

  /** Beyond that the code can overlap: a second executable section wraps round to the first. */
  lemma WrapOverlaps()
    ensures var a := Section("a", NOBITS, {Alloc, ExecInstr}, 1, 0xFFFF_FFFF, [], 0, []);
            var b := Section("b", NOBITS, {Alloc, ExecInstr}, 16, 16, [], 0, []);
            !Separate([a, b], LayoutOf(true, [a, b]).vsec, 0, 1)
  {
    var a := Section("a", NOBITS, {Alloc, ExecInstr}, 1, 0xFFFF_FFFF, [], 0, []);
    var b := Section("b", NOBITS, {Alloc, ExecInstr}, 16, 16, [], 0, []);
    var secs := [a, b];
    var st := Tally(seq(2, _ => UNPLACED), 0);
    TwoExecutable(secs);
    assert Up(true, 0, Align(a)) == 0 && Up(true, 0xFFFF_FFFF, Align(b)) == 0;
    hide Members, Up, AlignAs, Align;
    PlaceAllNone(true, secs, st);
    PlaceAllSnoc(true, secs, [], 0, st);
    PlaceAllSnoc(true, secs, [0], 1, st);
    assert [] + [0] == [0] && [0] + [1] == [0, 1];
    var exec := PlaceAll(true, secs, [0, 1], st);
    assert exec.vsec == [0, 0];
    PlaceAllNone(true, secs, exec);
  }
}
