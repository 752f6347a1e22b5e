/** Building a module's image: sections copied to their places in a zeroed mapping. */
module Loading {
  import opened Bits
  import opened Memory
  import opened Elf
  import opened Layout
  import opened LayoutSafety

  predicate Loaded(s: Section) {
    Alloc in s.flags
  }

  /** What copying asks of a section header: a 32-bit size, and the bytes it announces. */
  predicate Sound(s: Section) {
    Loaded(s) ==> s.size < TWO32 && (s.kind != NOBITS ==> |s.data| == s.size)
  }

  /** The image holds every loaded section. */
  predicate Roomy(secs: seq<Section>, vsec: seq<nat>, total: nat) {
    |vsec| == |secs|
    && forall i :: 0 <= i < |secs| && Loaded(secs[i]) ==> Sound(secs[i]) && vsec[i] + secs[i].size <= total
  }

  function Zeros(n: nat): (z: seq<byte>)
    ensures |z| == n
  {
    seq(n, _ => 0)
  }

  /** The image after the first k sections were copied. */
  function Copied(secs: seq<Section>, vsec: seq<nat>, total: nat, k: nat): (mem: seq<byte>)
    requires Roomy(secs, vsec, total) && k <= |secs|
    ensures |mem| == total
  {
    if k == 0 then Zeros(total)
    else
      var mem := Copied(secs, vsec, total, k - 1);
      var s := secs[k - 1];
      if Loaded(s) && s.kind != NOBITS then Overwrite(mem, vsec[k - 1], s.data) else mem
  }

  predicate Holds(secs: seq<Section>, vsec: seq<nat>, i: nat, b: int)
    requires i < |secs| && |vsec| == |secs|
  {
    Loaded(secs[i]) && vsec[i] <= b < vsec[i] + secs[i].size
  }

  predicate AllSeparate(secs: seq<Section>, vsec: seq<nat>)
    requires |vsec| == |secs|
  {
    forall i, j :: 0 <= i < j < |secs| && Loaded(secs[i]) && Loaded(secs[j]) ==> Separate(secs, vsec, i, j)
  }

  /** The byte a section contributes to the image. */
  function Contributes(s: Section, j: nat): byte
    requires Loaded(s) && Sound(s) && j < s.size
  {
    if s.kind == NOBITS then 0 else s.data[j]
  }

  lemma OnlyOne(secs: seq<Section>, vsec: seq<nat>, i: nat, j: nat, b: nat)
    requires |vsec| == |secs| && AllSeparate(secs, vsec) && i < j < |secs|
    requires Sound(secs[i]) && Sound(secs[j])
    ensures !(Holds(secs, vsec, i, b) && Holds(secs, vsec, j, b))
  {
    if Loaded(secs[i]) && Loaded(secs[j]) {
      assert Separate(secs, vsec, i, j);
    }
  }

  /** One copy: its own section's byte if it holds b and has bytes, else what was there. A NOBITS
      section finds the zero that no other section has overwritten. */
  lemma CopyStep(secs: seq<Section>, vsec: seq<nat>, total: nat, k: nat, b: nat)
    requires Roomy(secs, vsec, total) && AllSeparate(secs, vsec) && 0 < k <= |secs| && b < total
    requires forall i :: 0 <= i < k - 1 && Holds(secs, vsec, i, b) ==>
               Copied(secs, vsec, total, k - 1)[b] == Contributes(secs[i], b - vsec[i])
    requires (forall i :: 0 <= i < k - 1 ==> !Holds(secs, vsec, i, b)) ==> Copied(secs, vsec, total, k - 1)[b] == 0
    ensures Holds(secs, vsec, k - 1, b) ==>
              Copied(secs, vsec, total, k)[b] == Contributes(secs[k - 1], b - vsec[k - 1])
    ensures !Holds(secs, vsec, k - 1, b) ==> Copied(secs, vsec, total, k)[b] == Copied(secs, vsec, total, k - 1)[b]
  {
    if Holds(secs, vsec, k - 1, b) {
      forall i | 0 <= i < k - 1
        ensures !Holds(secs, vsec, i, b)
      {
        OnlyOne(secs, vsec, i, k - 1, b);
      }
    }
  }

  /** No later copy disturbs an earlier one: after k copies every section copied so far holds its
      bytes, and a byte of no such section is zero. */
  lemma {:induction false} CopiedExact(secs: seq<Section>, vsec: seq<nat>, total: nat, k: nat, b: nat)
    requires Roomy(secs, vsec, total) && AllSeparate(secs, vsec) && k <= |secs| && b < total
    ensures forall i :: 0 <= i < k && Holds(secs, vsec, i, b) ==>
              Copied(secs, vsec, total, k)[b] == Contributes(secs[i], b - vsec[i])
    ensures (forall i :: 0 <= i < k ==> !Holds(secs, vsec, i, b)) ==> Copied(secs, vsec, total, k)[b] == 0
  {
    if k == 0 {
    } else {
      CopiedExact(secs, vsec, total, k - 1, b);
      CopyStep(secs, vsec, total, k, b);
      hide Copied, Holds, Contributes;
      forall i | 0 <= i < k && Holds(secs, vsec, i, b)
        ensures Copied(secs, vsec, total, k)[b] == Contributes(secs[i], b - vsec[i])
      {
        if i < k - 1 {
          OnlyOne(secs, vsec, i, k - 1, b);
        }
      }
    }
  }

  /** The finished image: loaded sections hold their file bytes, or zeros, and padding is zero. */
  lemma ImageExact(secs: seq<Section>, vsec: seq<nat>, total: nat)
    requires Roomy(secs, vsec, total) && AllSeparate(secs, vsec)
    ensures var mem := Copied(secs, vsec, total, |secs|);
            && (forall i :: 0 <= i < |secs| && Loaded(secs[i]) ==>
                 mem[vsec[i]..vsec[i] + secs[i].size]
                 == if secs[i].kind == NOBITS then Zeros(secs[i].size) else secs[i].data)
            && (forall b :: 0 <= b < total && (forall i :: 0 <= i < |secs| ==> !Holds(secs, vsec, i, b)) ==>
                 mem[b] == 0)
  {
    hide Copied;
    var mem := Copied(secs, vsec, total, |secs|);
    forall b | 0 <= b < total && (forall i :: 0 <= i < |secs| ==> !Holds(secs, vsec, i, b))
      ensures mem[b] == 0
    {
      CopiedExact(secs, vsec, total, |secs|, b);
    }
    forall i | 0 <= i < |secs| && Loaded(secs[i])
      ensures mem[vsec[i]..vsec[i] + secs[i].size]
           == if secs[i].kind == NOBITS then Zeros(secs[i].size) else secs[i].data
    {
      var part := mem[vsec[i]..vsec[i] + secs[i].size];
      forall j | 0 <= j < secs[i].size
        ensures part[j] == Contributes(secs[i], j)
      {
        assert Holds(secs, vsec, i, vsec[i] + j);
        CopiedExact(secs, vsec, total, |secs|, vsec[i] + j);
      }
    }
  }

  /** The computed layout leaves room for every section and keeps them apart. */
  lemma LayoutIsRoomy(secs: seq<Section>)
    requires Fits32(secs) && forall i :: 0 <= i < |secs| ==> Sound(secs[i])
    ensures var r := LayoutOf(true, secs); Roomy(secs, r.vsec, r.total) && AllSeparate(secs, r.vsec)
  {
    hide LayoutOf, Total;
    LayoutSafe(secs);
    assert forall i :: 0 <= i < |secs| ==> (Loaded(secs[i]) <==> Class(secs[i].flags) < 4);
  }
}
