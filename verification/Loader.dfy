/** Loading one module: layout, image, symbols, relocation, and the range that is protected. */
module Loader {
  import opened Bits
  import opened Insn
  import opened Memory
  import opened Reloc
  import opened Pass
  import opened Elf
  import opened Layout
  import opened LayoutSafety
  import opened Loading
  import opened Symbols

  // ----- what loading a module must produce, from its file and the base the mapping got

  /** An object with the circumstances of its load: where its file and its image are mapped, and
      what the symbol loop's address variable held before its first assignment. */
  datatype Object = Object(secs: seq<Section>, symbols: seq<Symbol>, base: nat, fileAddr: seq<u64>, uninitialised: u64)

  function Places(o: Object): Result {
    LayoutOf(true, o.secs)
  }

  /** The entry patches only bytes of the section it belongs to. */
  predicate InSection(e: Rela, target: Section) {
    e.offset + Width(HowtoOf(e.t)) <= target.size
  }

  /** The RELA sections the loader processes. */
  predicate Patches(secs: seq<Section>, i: nat)
    requires i < |secs|
  {
    secs[i].kind == RELA && secs[i].info < |secs| && Loaded(secs[secs[i].info])
  }

  predicate Loadable(o: Object) {
    && Fits32(o.secs)
    && (forall i :: 0 <= i < |o.secs| ==> Sound(o.secs[i]))
    && o.base % 4096 == 0 && o.base + Places(o).total < TWO64
    && |o.fileAddr| == |o.secs|
    && (forall i, j :: 0 <= i < |o.secs| && Patches(o.secs, i) && 0 <= j < |o.secs[i].relas| ==>
         InSection(o.secs[i].relas[j], o.secs[o.secs[i].info]))
  }

  /** What is known of the places of a loadable object's sections. */
  lemma PlacesFit(o: Object)
    requires Loadable(o)
    ensures Roomy(o.secs, Places(o).vsec, Places(o).total) && AllSeparate(o.secs, Places(o).vsec)
    ensures forall i :: 0 <= i < |o.secs| && Loaded(o.secs[i]) ==> o.base + Places(o).vsec[i] < TWO64
  {
    hide LayoutOf;
    LayoutIsRoomy(o.secs);
  }

  /** Section addresses after the move: image addresses for loaded sections, file addresses for
      the rest. */
  function Addresses(o: Object): (addr: seq<u64>)
    requires Loadable(o)
    ensures |addr| == |o.secs|
  {
    PlacesFit(o);
    seq(|o.secs|, i requires 0 <= i < |o.secs| =>
      if Loaded(o.secs[i]) then o.base + Places(o).vsec[i] else o.fileAddr[i])
  }

  /** The symbol scan of the load, against the table it finds. */
  function Scanned(o: Object, env: Table): (r: Scan)
    requires Loadable(o)
    ensures |r.symbols| == |o.symbols|
  {
    ScanTo(Addresses(o), Scan(env, o.symbols, o.uninitialised, 0), |o.symbols|)
  }

  /** The address of the module's constructor: its last global definition of Construct, or 0. */
  function ConstructOf(o: Object): u64
    requires Loadable(o)
  {
    var i := LastNamed(o.symbols, |o.secs|, "Construct", |o.symbols|);
    if i >= 0 then ToU64(o.symbols[i].value + Addresses(o)[o.symbols[i].index.sec]) else 0
  }

  lemma ConstructIs(o: Object, env: Table)
    requires Loadable(o)
    ensures Scanned(o, env).construct == ConstructOf(o)
  {
    hide Loadable, Addresses, ScanTo;
    ConstructAfter(Addresses(o), Scan(env, o.symbols, o.uninitialised, 0), |o.symbols|);
  }

  /** The first k entries of one RELA section as fixups; an entry without a symbol is skipped. */
  function EntryFixups(relas: seq<Rela>, at: nat, symbols: seq<Symbol>, k: nat): seq<Fixup>
    requires k <= |relas|
  {
    if k == 0 then []
    else
      var e := relas[k - 1];
      var rest := EntryFixups(relas, at, symbols, k - 1);
      if e.symbol < |symbols| then
        rest + [Fixup(e.t, at + e.offset, ToU64(symbols[e.symbol].value + e.addend))]
      else rest
  }

  /** All fixups of the first n sections, in the order they are applied. */
  function Fixups(secs: seq<Section>, vsec: seq<nat>, symbols: seq<Symbol>, n: nat): seq<Fixup>
    requires n <= |secs| == |vsec|
  {
    if n == 0 then []
    else if Patches(secs, n - 1) then
      Fixups(secs, vsec, symbols, n - 1)
      + EntryFixups(secs[n - 1].relas, vsec[secs[n - 1].info], symbols, |secs[n - 1].relas|)
    else Fixups(secs, vsec, symbols, n - 1)
  }

  function AllFixups(o: Object, env: Table): seq<Fixup>
    requires Loadable(o)
  {
    Fixups(o.secs, Places(o).vsec, Scanned(o, env).symbols, |o.secs|)
  }

  function CopiedImage(o: Object): seq<byte>
    requires Loadable(o)
  {
    PlacesFit(o);
    Copied(o.secs, Places(o).vsec, Places(o).total, |o.secs|)
  }

  lemma {:induction false} EntriesInside(relas: seq<Rela>, at: nat, target: Section, symbols: seq<Symbol>, k: nat,
                                         total: nat)
    requires k <= |relas| && at + target.size <= total
    requires forall j :: 0 <= j < |relas| ==> InSection(relas[j], target)
    ensures Inside(EntryFixups(relas, at, symbols, k), total)
  {
    if k == 0 {
    } else {
      EntriesInside(relas, at, target, symbols, k - 1, total);
    }
  }

  lemma {:induction false} FixupsInside(o: Object, env: Table, n: nat)
    requires Loadable(o) && n <= |o.secs|
    ensures Inside(Fixups(o.secs, Places(o).vsec, Scanned(o, env).symbols, n), Places(o).total)
  {
    if n == 0 {
    } else {
      FixupsInside(o, env, n - 1);
      if Patches(o.secs, n - 1) {
        PlacesFit(o);
        var s := o.secs[n - 1];
        EntriesInside(s.relas, Places(o).vsec[s.info], o.secs[s.info], Scanned(o, env).symbols, |s.relas|,
                      Places(o).total);
      }
    }
  }

  function FinalImage(o: Object, env: Table): (mem: seq<byte>)
    requires Loadable(o)
    ensures |mem| == Places(o).total
  {
    PlacesFit(o);
    FixupsInside(o, env, |o.secs|);
    Run(CopiedImage(o), o.base, AllFixups(o, env))
  }

  /** The entries the code applies from entry j of section i on, read off its two nested loops: RELA
      sections that patch a loaded section, entries whose symbol exists. */
  function EntriesFrom(o: Object, symbols: seq<Symbol>, i: nat, j: nat): seq<Fixup>
    requires Loadable(o) && i <= |o.secs|
    decreases |o.secs| - i, if i < |o.secs| then |o.secs[i].relas| - j else 0
  {
    if i == |o.secs| then []
    else
      var s := o.secs[i];
      if s.kind != RELA || s.info >= |o.secs| || Alloc !in o.secs[s.info].flags || j >= |s.relas| then
        EntriesFrom(o, symbols, i + 1, 0)
      else
        var e := s.relas[j];
        (if e.symbol < |symbols| then
           [Fixup(e.t, Places(o).vsec[s.info] + e.offset, ToU64(symbols[e.symbol].value + e.addend))]
         else [])
        + EntriesFrom(o, symbols, i, j + 1)
  }

  lemma EntriesNext(o: Object, symbols: seq<Symbol>, i: nat, j: nat)
    requires Loadable(o) && i < |o.secs| && Patches(o.secs, i) && j < |o.secs[i].relas|
    ensures var relas, at := o.secs[i].relas, Places(o).vsec[o.secs[i].info];
            EntryFixups(relas, at, symbols, j + 1) + EntriesFrom(o, symbols, i, j + 1)
            == EntryFixups(relas, at, symbols, j) + EntriesFrom(o, symbols, i, j)
  {
    hide LayoutOf, Loadable, ToU64;
  }

  lemma {:induction false} EntriesUpTo(o: Object, symbols: seq<Symbol>, i: nat, j: nat)
    requires Loadable(o) && i < |o.secs| && Patches(o.secs, i) && j <= |o.secs[i].relas|
    ensures EntriesFrom(o, symbols, i, 0)
         == EntryFixups(o.secs[i].relas, Places(o).vsec[o.secs[i].info], symbols, j) + EntriesFrom(o, symbols, i, j)
  {
    hide LayoutOf, Loadable, EntriesFrom, Patches;
    if j == 0 {
    } else {
      hide EntryFixups;
      EntriesUpTo(o, symbols, i, j - 1);
      EntriesNext(o, symbols, i, j - 1);
    }
  }

  lemma {:induction false} SectionsUpTo(o: Object, symbols: seq<Symbol>, n: nat)
    requires Loadable(o) && n <= |o.secs|
    ensures EntriesFrom(o, symbols, 0, 0)
         == Fixups(o.secs, Places(o).vsec, symbols, n) + EntriesFrom(o, symbols, n, 0)
  {
    hide LayoutOf, Loadable, EntryFixups;
    if n == 0 {
    } else {
      SectionsUpTo(o, symbols, n - 1);
      if Patches(o.secs, n - 1) {
        EntriesUpTo(o, symbols, n - 1, |o.secs[n - 1].relas|);
      }
    }
  }

  /** The entries of the specification are those, in that order. */
  lemma AllInOrder(o: Object, env: Table)
    requires Loadable(o)
    ensures AllFixups(o, env) == EntriesFrom(o, Scanned(o, env).symbols, 0, 0)
  {
    hide LayoutOf, Loadable, ScanTo, Fixups;
    SectionsUpTo(o, Scanned(o, env).symbols, |o.secs|);
  }

  /** Entry j of section i is applied: a RELA entry for a loaded section, with an existing symbol. */
  predicate Applies(o: Object, i: nat, j: nat) {
    && i < |o.secs| && o.secs[i].kind == RELA && o.secs[i].info < |o.secs|
    && Alloc in o.secs[o.secs[i].info].flags
    && j < |o.secs[i].relas| && o.secs[i].relas[j].symbol < |o.symbols|
  }

  /** The place and the S + A of such an entry. */
  function FixupOf(o: Object, env: Table, i: nat, j: nat): Fixup
    requires Loadable(o) && Applies(o, i, j)
  {
    var e := o.secs[i].relas[j];
    Fixup(e.t, Places(o).vsec[o.secs[i].info] + e.offset, ToU64(Scanned(o, env).symbols[e.symbol].value + e.addend))
  }

  predicate IsEntry(o: Object, env: Table, f: Fixup, i: nat, j: nat)
    requires Loadable(o)
  {
    Applies(o, i, j) && f == FixupOf(o, env, i, j)
  }

  lemma HeadIs(o: Object, env: Table, i: nat, j: nat)
    requires Loadable(o) && i < |o.secs| && o.secs[i].kind == RELA && o.secs[i].info < |o.secs|
    requires Alloc in o.secs[o.secs[i].info].flags && j < |o.secs[i].relas|
    ensures EntriesFrom(o, Scanned(o, env).symbols, i, j)
         == (if Applies(o, i, j) then [FixupOf(o, env, i, j)] else [])
            + EntriesFrom(o, Scanned(o, env).symbols, i, j + 1)
  {
    hide LayoutOf, Loadable, ScanTo;
  }

  lemma SkipIs(o: Object, env: Table, f: Fixup, i: nat, j: nat)
    requires Loadable(o) && i < |o.secs|
    requires o.secs[i].kind != RELA || o.secs[i].info >= |o.secs| || Alloc !in o.secs[o.secs[i].info].flags
             || j >= |o.secs[i].relas|
    ensures EntriesFrom(o, Scanned(o, env).symbols, i, j) == EntriesFrom(o, Scanned(o, env).symbols, i + 1, 0)
    ensures forall l :: j <= l ==> !IsEntry(o, env, f, i, l)
  {
    hide LayoutOf, Loadable, Scanned, FixupOf;
  }

  lemma EndIs(o: Object, env: Table, f: Fixup)
    requires Loadable(o)
    ensures EntriesFrom(o, Scanned(o, env).symbols, |o.secs|, 0) == []
    ensures forall k, l :: |o.secs| <= k ==> !IsEntry(o, env, f, k, l)
  {
    hide LayoutOf, Loadable, Scanned, FixupOf;
  }

  lemma HeadEntry(o: Object, env: Table, f: Fixup, i: nat, j: nat)
    requires Loadable(o)
    ensures IsEntry(o, env, f, i, j) <==> f in (if Applies(o, i, j) then [FixupOf(o, env, i, j)] else [])
  {
    hide LayoutOf, Loadable, Scanned, FixupOf;
  }

  lemma {:induction false} EntriesAre(o: Object, env: Table, f: Fixup, i: nat, j: nat)
    requires Loadable(o) && i <= |o.secs| && (i == |o.secs| ==> j == 0)
    ensures f in EntriesFrom(o, Scanned(o, env).symbols, i, j)
       <==> exists k, l :: IsEntry(o, env, f, k, l) && (i < k || (i == k && j <= l))
    decreases |o.secs| - i, if i < |o.secs| then |o.secs[i].relas| - j else 0
  {
    hide LayoutOf, Loadable, Scanned, FixupOf, EntriesFrom, IsEntry;
    if i == |o.secs| {
      EndIs(o, env, f);
    } else {
      var s := o.secs[i];
      if s.kind != RELA || s.info >= |o.secs| || Alloc !in o.secs[s.info].flags || j >= |s.relas| {
        EntriesAre(o, env, f, i + 1, 0);
        SkipIs(o, env, f, i, j);
      } else {
        EntriesAre(o, env, f, i, j + 1);
        HeadIs(o, env, i, j);
        HeadEntry(o, env, f, i, j);
      }
    }
  }

  /** A fixup is applied exactly if it is that of an entry of a RELA section whose target is loaded,
      with a symbol that exists. */
  lemma AppliedExactly(o: Object, env: Table, f: Fixup)
    requires Loadable(o)
    ensures f in AllFixups(o, env) <==> exists i, j :: IsEntry(o, env, f, i, j)
  {
    hide LayoutOf, Loadable, ScanTo, Fixups, IsEntry;
    AllInOrder(o, env);
    EntriesAre(o, env, f, 0, 0);
  }

  lemma {:induction false} EntriesInTarget(relas: seq<Rela>, at: nat, target: Section, symbols: seq<Symbol>, k: nat)
    requires k <= |relas| && forall j :: 0 <= j < |relas| ==> InSection(relas[j], target)
    ensures forall f, b: int :: f in EntryFixups(relas, at, symbols, k) && f.Covers(b) ==> at <= b < at + target.size
  {
    hide HowtoOf;
    if k == 0 {
    } else {
      EntriesInTarget(relas, at, target, symbols, k - 1);
    }
  }

  /** Relocation touches only bytes of loaded sections. */
  lemma {:induction false} FixupsHeld(o: Object, symbols: seq<Symbol>, n: nat, b: int)
    requires Loadable(o) && n <= |o.secs|
    requires forall i :: 0 <= i < |o.secs| ==> !Holds(o.secs, Places(o).vsec, i, b)
    ensures forall f :: f in Fixups(o.secs, Places(o).vsec, symbols, n) ==> !f.Covers(b)
  {
    hide LayoutOf, EntryFixups, Fixup.Covers, InSection;
    if n == 0 {
    } else {
      FixupsHeld(o, symbols, n - 1, b);
      if Patches(o.secs, n - 1) {
        var s := o.secs[n - 1];
        EntriesInTarget(s.relas, Places(o).vsec[s.info], o.secs[s.info], symbols, |s.relas|);
        assert !Holds(o.secs, Places(o).vsec, s.info, b);
      }
    }
  }

  /** No entry patches byte b of the image. */
  predicate Unpatched(o: Object, env: Table, b: int)
    requires Loadable(o)
  {
    forall f :: f in AllFixups(o, env) ==> !f.Covers(b)
  }

  /** What the loaded image holds besides its patched places, for any entries: the bytes of the
      section a byte lies in, zeros for NOBITS, and zeros between the sections. */
  lemma FinalContents(o: Object, env: Table, b: nat)
    requires Loadable(o) && b < Places(o).total
    ensures Unpatched(o, env, b) ==>
              forall i :: 0 <= i < |o.secs| && Holds(o.secs, Places(o).vsec, i, b) ==>
                FinalImage(o, env)[b] == Contributes(o.secs[i], b - Places(o).vsec[i])
    ensures (forall i :: 0 <= i < |o.secs| ==> !Holds(o.secs, Places(o).vsec, i, b)) ==> FinalImage(o, env)[b] == 0
  {
    hide LayoutOf, Copied, Fixups, Run, ScanTo, Contributes, Fixup.Covers;
    PlacesFit(o);
    FixupsInside(o, env, |o.secs|);
    CopiedExact(o.secs, Places(o).vsec, Places(o).total, |o.secs|, b);
    if forall i :: 0 <= i < |o.secs| ==> !Holds(o.secs, Places(o).vsec, i, b) {
      FixupsHeld(o, Scanned(o, env).symbols, |o.secs|, b);
    }
    if Unpatched(o, env, b) {
      RunFrame(CopiedImage(o), o.base, AllFixups(o, env), b);
    }
  }

  /** A loaded section's address is where its bytes are: what lies there in the final image, but for
      patched places, are its file bytes, or zeros for NOBITS. Other sections keep their address. */
  lemma AddressHolds(o: Object, env: Table, i: nat, j: nat)
    requires Loadable(o) && i < |o.secs|
    ensures Alloc !in o.secs[i].flags ==> Addresses(o)[i] == o.fileAddr[i]
    ensures Alloc in o.secs[i].flags && j < o.secs[i].size ==>
              var at := Addresses(o)[i] - o.base + j;
              && 0 <= at < |FinalImage(o, env)|
              && (Unpatched(o, env, at) && o.secs[i].kind == NOBITS ==> FinalImage(o, env)[at] == 0)
              && (Unpatched(o, env, at) && o.secs[i].kind != NOBITS ==>
                    j < |o.secs[i].data| && FinalImage(o, env)[at] == o.secs[i].data[j])
  {
    hide LayoutOf, FinalImage, Unpatched;
    PlacesFit(o);
    if Alloc in o.secs[i].flags && j < o.secs[i].size {
      assert Holds(o.secs, Places(o).vsec, i, Places(o).vsec[i] + j);
      FinalContents(o, env, Places(o).vsec[i] + j);
    }
  }

  /** A range of whole pages that covers every executable, read-only and read-only-after-init
      section, and none of the other writable ones. */
  predicate Protects(o: Object, start: nat, length: nat)
    requires Loadable(o)
  {
    var vsec := Places(o).vsec;
    && start % 4096 == 0 && length % 4096 == 0
    && forall i :: 0 <= i < |o.secs| && Loaded(o.secs[i]) ==>
         if Write !in o.secs[i].flags || ExecInstr in o.secs[i].flags || RoAfterInit in o.secs[i].flags
         then start <= o.base + vsec[i] && o.base + vsec[i] + o.secs[i].size <= start + length
         else start + length <= o.base + vsec[i]
  }

  lemma SplitProtects(o: Object)
    requires Loadable(o)
    ensures Protects(o, o.base, Places(o).roAfterInit)
  {
    hide LayoutOf, Total;
    LayoutSafe(o.secs);
    forall i | 0 <= i < |o.secs| && Loaded(o.secs[i])
      ensures Size(o.secs[i]) == o.secs[i].size
    {
      assert Sound(o.secs[i]);
    }
  }

  // ----- the code

  lemma FixupFits(f: Fixup, target: Section, at: nat, e: Rela)
    requires InSection(e, target) && f.t == e.t && f.loc == at + e.offset
    ensures f.loc + f.Size() <= at + target.size && f.Size() == Width(HowtoOf(e.t))
  {
  }

  lemma RunNothing(mem: seq<byte>, base: nat)
    ensures Inside([], |mem|) && Run(mem, base, []) == mem
  {
  }

  /** apply_relocate_add: the entries of one RELA section, in order. A failed entry is only
      logged; the loop goes on. */
  method ApplyRelocateAdd(relas: seq<Rela>, secBase: u64, target: Section, symbols: seq<Symbol>, img: Image)
    requires img.Valid() && img.base <= secBase && secBase - img.base + target.size <= img.bytes.Length
    requires forall j :: 0 <= j < |relas| ==> InSection(relas[j], target)
    modifies img.bytes
    ensures Inside(EntryFixups(relas, secBase - img.base, symbols, |relas|), img.bytes.Length)
    ensures img.bytes[..]
         == Run(old(img.bytes[..]), img.base, EntryFixups(relas, secBase - img.base, symbols, |relas|))
  {
    hide Run, Inside, Patch, Fixup.Size, HowtoOf, CellTop, Status, Place;
    ghost var mem, at := img.bytes[..], secBase - img.base;
    EntriesInside(relas, at, target, symbols, 0, |mem|);
    RunNothing(mem, img.base);
    for i := 0 to |relas|
      invariant Inside(EntryFixups(relas, at, symbols, i), |mem|)
      invariant img.bytes[..] == Run(mem, img.base, EntryFixups(relas, at, symbols, i))
    {
      var e := relas[i];
      EntriesInside(relas, at, target, symbols, i + 1, |mem|);
      if e.symbol >= |symbols| {
        continue;
      }
      var loc := secBase + e.offset;
      var val := ToU64(symbols[e.symbol].value + e.addend);
      ghost var f := Fixup(e.t, loc - img.base, val);
      FixupFits(f, target, at, e);
      RunSnoc(mem, img.base, EntryFixups(relas, at, symbols, i), f);
      var ret := DoRelocateAdd(e.t, img, loc - img.base, val);
    }
  }

  class Module {
    const o: Object
    const layout: ModuleLayout
    var addr: seq<u64>
    var symbols: seq<Symbol>
    var construct: u64
    var image: Image?

    constructor (o: Object)
      ensures this.o == o && fresh(layout) && layout.totalSize == 0
      ensures addr == o.fileAddr && symbols == o.symbols && construct == 0 && image == null
    {
      this.o := o;
      layout := new ModuleLayout();
      addr, symbols, construct, image := o.fileAddr, o.symbols, 0, null;
    }

    /** move_module: a zeroed mapping, the sections copied in, their addresses moved. */
    method MoveModule()
      requires Loadable(o) && layout.Is(Places(o)) && addr == o.fileAddr
      modifies this`image, this`addr
      ensures image != null && fresh(image) && fresh(image.bytes) && image.Valid()
      ensures image.base == o.base && image.bytes[..] == CopiedImage(o)
      ensures addr == Addresses(o)
    {
      hide LayoutOf, Overwrite;
      PlacesFit(o);
      var img := new Image(o.base, layout.totalSize);
      for i := 0 to |o.secs|
        invariant img.bytes.Length == layout.totalSize
        invariant img.bytes[..] == Copied(o.secs, layout.vsec, layout.totalSize, i)
        invariant |addr| == |o.secs|
        invariant forall j :: 0 <= j < |o.secs| ==>
                    addr[j] == if j < i then Addresses(o)[j] else o.fileAddr[j]
      {
        var s := o.secs[i];
        if Alloc !in s.flags {
          continue;
        }
        if s.kind != NOBITS {
          img.CopyIn(layout.vsec[i], s.data);
        }
        addr := addr[i := o.base + layout.vsec[i]];
      }
      assert addr == Addresses(o);
      image := img;
    }

    /** relocate_symbol: every RELA section whose target was loaded. */
    method RelocateSymbol()
      requires Loadable(o) && addr == Addresses(o) && image != null && image.Valid()
      requires image.base == o.base && image.bytes.Length == Places(o).total
      modifies image.bytes
      ensures Inside(Fixups(o.secs, Places(o).vsec, symbols, |o.secs|), Places(o).total)
      ensures image.bytes[..]
           == Run(old(image.bytes[..]), o.base, Fixups(o.secs, Places(o).vsec, symbols, |o.secs|))
    {
      hide LayoutOf, Run, Inside, EntryFixups, InSection;
      PlacesFit(o);
      ghost var mem, vsec := image.bytes[..], Places(o).vsec;
      RunNothing(mem, o.base);
      for i := 0 to |o.secs|
        invariant Inside(Fixups(o.secs, vsec, symbols, i), |mem|)
        invariant image.bytes[..] == Run(mem, o.base, Fixups(o.secs, vsec, symbols, i))
      {
        var s := o.secs[i];
        if s.kind != RELA || s.info >= |o.secs| || Alloc !in o.secs[s.info].flags {
          continue;
        }
        assert Patches(o.secs, i) && addr[s.info] == o.base + vsec[s.info];
        ghost var done := Fixups(o.secs, vsec, symbols, i);
        ApplyRelocateAdd(s.relas, addr[s.info], o.secs[s.info], symbols, image);
        RunAppend(mem, o.base, done, EntryFixups(s.relas, vsec[s.info], symbols, |s.relas|));
      }
    }

    /** mod_protect: the range made read-only and executable. */
    method ModProtect() returns (start: nat, length: nat)
      requires Loadable(o) && layout.Is(Places(o)) && image != null && image.base == o.base
      ensures start == o.base && length == Places(o).roAfterInit && Protects(o, start, length)
    {
      hide LayoutOf, Loadable, Protects;
      SplitProtects(o);
      start, length := image.base, layout.roAfterInitSize;
    }

    /** load_module, after the file was read: the steps in their order. */
    method LoadModule(env: SysEnv) returns (start: nat, length: nat)
      requires Loadable(o) && layout.totalSize == 0 && addr == o.fileAddr && symbols == o.symbols && construct == 0
      modifies this, layout, env
      ensures layout.Is(Places(o)) && addr == Addresses(o)
      ensures env.table == Scanned(o, old(env.table)).env && symbols == Scanned(o, old(env.table)).symbols
      ensures construct == Scanned(o, old(env.table)).construct == ConstructOf(o)
      ensures image != null && fresh(image) && fresh(image.bytes) && image.base == o.base
      ensures image.bytes[..] == FinalImage(o, old(env.table))
      ensures start == o.base && length == Places(o).roAfterInit && Protects(o, start, length)
    {
      hide LayoutOf, Protects, ConstructOf, Copied, Run, Inside, ScanTo, Fixups;
      layout.LayoutSections(o.secs);
      MoveModule();
      ghost var was := env.table;
      ConstructIs(o, was);
      symbols, construct := UpdateSymbolAddr(env, addr, symbols, o.uninitialised, construct);
      FixupsInside(o, was, |o.secs|);
      RelocateSymbol();
      start, length := ModProtect();
    }
  }
}
