/** One object loaded at two bases: its images differ only at absolute places. */
module Moving {
  import opened Bits
  import opened Reloc
  import opened Pass
  import opened Elf
  import opened Layout
  import opened Symbols
  import opened Loading
  import opened Loader

  /** A section symbol or definition in a section that is part of the image. */
  predicate Local(o: Object, i: nat)
    requires i < |o.symbols|
  {
    var s := o.symbols[i];
    s.index.At? && s.index.sec < |o.secs| && Loaded(o.secs[s.index.sec])
  }

  /** Every entry the loader applies refers to such a symbol. */
  predicate SelfContained(o: Object) {
    forall i, j :: 0 <= i < |o.secs| && Patches(o.secs, i) && 0 <= j < |o.secs[i].relas| ==>
      o.secs[i].relas[j].symbol < |o.symbols| ==> Local(o, o.secs[i].relas[j].symbol)
  }

  lemma LocalValue(o: Object, env: Table, i: nat)
    requires Loadable(o) && i < |o.symbols| && Local(o, i)
    ensures var s := o.symbols[i]; var at := Addresses(o)[s.index.sec];
            Scanned(o, env).symbols[i].value == if s.isSection then at else ToU64(s.value + at)
  {
    hide Loadable, Addresses, Loaded;
    var st := Scan(env, o.symbols, o.uninitialised, 0);
    ScanLeaves(Addresses(o), st, i);
    ScanGrows(Addresses(o), st, i + 1, |o.symbols|);
  }

  lemma AddressMoves(o: Object, p: Object, d: int, sec: nat)
    requires Loadable(o) && Loadable(p) && p == o.(base := p.base) && p.base == o.base + d
    requires sec < |o.secs| && Loaded(o.secs[sec])
    ensures Addresses(p)[sec] == Addresses(o)[sec] + d == ToU64(Addresses(o)[sec] + d)
  {
    hide Loadable, LayoutOf;
  }

  lemma SumMoves(v: int, a: int, d: int)
    ensures ToU64(v + (a + d)) == ToU64(ToU64(v + a) + d)
  {
  }

  /** Such a symbol moves with the base, whatever else either run has bound. */
  lemma LocalMoves(o: Object, p: Object, d: int, env: Table, env': Table, i: nat)
    requires Loadable(o) && Loadable(p) && p == o.(base := p.base) && p.base == o.base + d
    requires i < |o.symbols| && Local(o, i)
    ensures Scanned(p, env').symbols[i].value == ToU64(Scanned(o, env).symbols[i].value + d)
  {
    hide Loadable, LayoutOf, ScanTo, Addresses;
    LocalValue(o, env, i);
    LocalValue(p, env', i);
    var sec := o.symbols[i].index.sec;
    AddressMoves(o, p, d, sec);
    SumMoves(o.symbols[i].value, Addresses(o)[sec], d);
  }

  lemma MovedSnoc(fs: seq<Fixup>, f: Fixup, d: int)
    ensures Moved(fs + [f], d) == Moved(fs, d) + [f.(val := ToU64(f.val + d))]
  {
    hide ToU64;
  }

  lemma MovedAppend(fs: seq<Fixup>, gs: seq<Fixup>, d: int)
    ensures Moved(fs + gs, d) == Moved(fs, d) + Moved(gs, d)
  {
    hide ToU64;
  }

  lemma MovedNone(d: int)
    ensures Moved([], d) == []
  {
  }

  lemma SumMovesAside(v: int, a: int, d: int)
    ensures ToU64(v + a) < TWO64 && ToU64(ToU64(v + d) + a) == ToU64(ToU64(v + a) + d)
  {
  }

  lemma {:induction false} EntriesMove(d: int, relas: seq<Rela>, at: nat, symbols: seq<Symbol>,
                                       symbols': seq<Symbol>, k: nat)
    requires k <= |relas| && |symbols| == |symbols'|
    requires forall j :: 0 <= j < |relas| && relas[j].symbol < |symbols| ==>
               symbols'[relas[j].symbol].value == ToU64(symbols[relas[j].symbol].value + d)
    ensures EntryFixups(relas, at, symbols', k) == Moved(EntryFixups(relas, at, symbols, k), d)
  {
    hide Moved, ToU64;
    if k == 0 {
      assert Moved([], d) == [] by { MovedNone(d); }
    } else {
      EntriesMove(d, relas, at, symbols, symbols', k - 1);
      var e := relas[k - 1];
      if e.symbol < |symbols| {
        var v := symbols[e.symbol].value;
        SumMovesAside(v, e.addend, d);
        MovedSnoc(EntryFixups(relas, at, symbols, k - 1), Fixup(e.t, at + e.offset, ToU64(v + e.addend)), d);
      }
    }
  }

  lemma {:induction false} FixupsMove(o: Object, p: Object, d: int, env: Table, env': Table, n: nat)
    requires Loadable(o) && Loadable(p) && p == o.(base := p.base) && p.base == o.base + d
    requires SelfContained(o) && n <= |o.secs|
    ensures Fixups(p.secs, Places(p).vsec, Scanned(p, env').symbols, n)
         == Moved(Fixups(o.secs, Places(o).vsec, Scanned(o, env).symbols, n), d)
  {
    hide Loadable, LayoutOf, ScanTo, Local, EntryFixups, Moved;
    if n == 0 {
      MovedNone(d);
    } else {
      FixupsMove(o, p, d, env, env', n - 1);
      if Patches(o.secs, n - 1) {
        var relas, symbols, symbols' := o.secs[n - 1].relas, Scanned(o, env).symbols, Scanned(p, env').symbols;
        forall j | 0 <= j < |relas| && relas[j].symbol < |symbols|
          ensures symbols'[relas[j].symbol].value == ToU64(symbols[relas[j].symbol].value + d)
        {
          LocalMoves(o, p, d, env, env', relas[j].symbol);
        }
        var at, done := Places(o).vsec[o.secs[n - 1].info], Fixups(o.secs, Places(o).vsec, symbols, n - 1);
        EntriesMove(d, relas, at, symbols, symbols', |relas|);
        MovedAppend(done, EntryFixups(relas, at, symbols, |relas|), d);
      }
    }
  }

  /** Position independence of a load: the same self-contained object at two bases whole pages
      apart, after whatever was registered or loaded before, gives the same byte everywhere but at
      absolute data and absolute wide moves, and the same status to every other entry. */
  lemma ObjectMoves(o: Object, p: Object, d: int, env: Table, env': Table)
    requires Loadable(o) && Loadable(p) && p == o.(base := p.base) && p.base == o.base + d
    requires SelfContained(o) && Disjoint(AllFixups(o, env))
    ensures AllFixups(p, env') == Moved(AllFixups(o, env), d)
    ensures var fs, fs' := AllFixups(o, env), AllFixups(p, env');
            && |FinalImage(o, env)| == |FinalImage(p, env')|
            && (forall i :: 0 <= i < |fs| && Movable(fs[i].t) ==> fs'[i].Outcome(p.base) == fs[i].Outcome(o.base))
            && (forall i :: 0 <= i < |FinalImage(o, env)| && (forall f :: f in fs && f.Covers(i) ==> Movable(f.t)) ==>
                  FinalImage(p, env')[i] == FinalImage(o, env)[i])
  {
    hide LayoutOf, ScanTo, Fixups, Run, Copied, Status, Movable, Disjoint, Sound, Patches, Local;
    FixupsMove(o, p, d, env, env', |o.secs|);
    FixupsInside(o, env, |o.secs|);
    assert d % 0x1000 == 0;
    PositionIndependence(CopiedImage(o), o.base, d, AllFixups(o, env));
    assert CopiedImage(p) == CopiedImage(o);
  }
}
