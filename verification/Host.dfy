/** The whole run: host functions registered, modules loaded one after another against one symbol
    table, and the entry point chosen. */
module Host {
  import opened Bits
  import opened Insn
  import opened Memory
  import opened Reloc
  import opened Decode
  import opened Resolve
  import opened Formulas
  import opened Pass
  import opened Linking
  import opened Elf
  import opened Layout
  import opened LayoutSafety
  import opened Loading
  import opened Symbols
  import opened Loader

  datatype Action = Register(name: string, address: u64) | LoadModule(o: Object)

  predicate Allowed(a: Action) {
    a.LoadModule? ==> Loadable(a.o)
  }

  predicate Legal(actions: seq<Action>) {
    forall k :: 0 <= k < |actions| ==> Allowed(actions[k])
  }

  function StepTable(env: Table, a: Action): Table
    requires Allowed(a)
  {
    match a
    case Register(name, address) => Emplace(env, name, address)
    case LoadModule(o) => Scanned(o, env).env
  }

  /** The bindings an action offers: a registration, or a module's definitions in table order. */
  function Offers(a: Action): seq<Binding>
    requires Allowed(a)
  {
    match a
    case Register(name, address) => [Binding(name, address)]
    case LoadModule(o) => Definitions(Addresses(o), o.symbols, |o.symbols|)
  }

  /** The symbol table after the first k actions, and the bindings they offered, in order. */
  function TableAt(actions: seq<Action>, k: nat): Table
    requires Legal(actions) && k <= |actions|
  {
    if k == 0 then map[] else StepTable(TableAt(actions, k - 1), actions[k - 1])
  }

  function BindingsAt(actions: seq<Action>, k: nat): seq<Binding>
    requires Legal(actions) && k <= |actions|
  {
    if k == 0 then [] else BindingsAt(actions, k - 1) + Offers(actions[k - 1])
  }

  lemma ScanNone(addr: seq<u64>, st: Scan)
    ensures ScanTo(addr, st, 0) == st
  {
  }

  /** One action adds its offers after all earlier bindings and rebinds nothing. */
  lemma StepBinds(env: Table, bs: seq<Binding>, a: Action)
    requires Allowed(a) && Earliest(env, bs)
    ensures Earliest(StepTable(env, a), bs + Offers(a)) && Grows(env, StepTable(env, a))
  {
    hide Loadable, Earliest, Definitions, ScanTo, Addresses;
    match a {
      case Register(name, address) => EmplaceKeepsEarliest(env, bs, Binding(name, address));
      case LoadModule(o) =>
        var st := Scan(env, o.symbols, o.uninitialised, 0);
        ScanBinds(Addresses(o), st, bs, |o.symbols|);
        ScanGrows(Addresses(o), st, 0, |o.symbols|);
        ScanNone(Addresses(o), st);
    }
  }

  lemma NothingBound()
    ensures Earliest(map[], [])
  {
  }

  /** Over any run the table holds exactly the earliest binding of every name. */
  lemma {:induction false} EarliestWins(actions: seq<Action>, k: nat)
    requires Legal(actions) && k <= |actions|
    ensures Earliest(TableAt(actions, k), BindingsAt(actions, k))
  {
    hide Earliest, StepTable, Offers, Allowed;
    if k == 0 {
      NothingBound();
    } else {
      EarliestWins(actions, k - 1);
      StepBinds(TableAt(actions, k - 1), BindingsAt(actions, k - 1), actions[k - 1]);
    }
  }

  /** A bound name never changes its address. */
  lemma {:induction false} NeverRebound(actions: seq<Action>, j: nat, k: nat)
    requires Legal(actions) && j <= k <= |actions|
    ensures Grows(TableAt(actions, j), TableAt(actions, k))
  {
    hide Earliest, StepTable, Offers, Allowed;
    if j == k {
    } else {
      NeverRebound(actions, j, k - 1);
      EarliestWins(actions, k - 1);
      StepBinds(TableAt(actions, k - 1), BindingsAt(actions, k - 1), actions[k - 1]);
    }
  }

  // ----- an import, through the whole run

  /** Symbol i of o finds a binding when the scan comes to it: an offer of an earlier action, or an
      earlier definition of o itself. */
  predicate BoundAt(o: Object, env: Table, i: nat)
    requires Loadable(o) && i < |o.symbols|
  {
    o.symbols[i].name in ScanTo(Addresses(o), Scan(env, o.symbols, o.uninitialised, 0), i).env
  }

  lemma BoundBefore(o: Object, env: Table, i: nat)
    requires Loadable(o) && i < |o.symbols| && o.symbols[i].name in env
    ensures BoundAt(o, env, i)
  {
    hide Loadable, Addresses;
    var st := Scan(env, o.symbols, o.uninitialised, 0);
    ScanNone(Addresses(o), st);
    ScanGrows(Addresses(o), st, 0, i);
  }

  /** An import that was bound when its turn came carries, in the relocated module, the address
      that the whole run binds to the name: the earliest registration or definition. */
  lemma ImportValue(actions: seq<Action>, k: nat, i: nat)
    requires Legal(actions) && k < |actions| && actions[k].LoadModule?
    requires i < |actions[k].o.symbols| && Imports(actions[k].o.symbols[i])
    requires Allowed(actions[k]) && BoundAt(actions[k].o, TableAt(actions, k), i)
    ensures var o := actions[k].o; var name, n := o.symbols[i].name, |actions|;
            && name in TableAt(actions, n)
            && Scanned(o, TableAt(actions, k)).symbols[i].value == TableAt(actions, n)[name]
            && First(BindingsAt(actions, n), name) == Some(TableAt(actions, n)[name])
  {
    hide Loadable, Definitions, Addresses, ScanTo, BindingsAt, First;
    var o, env, bs := actions[k].o, TableAt(actions, k), BindingsAt(actions, k);
    var st := Scan(env, o.symbols, o.uninitialised, 0);
    EarliestWins(actions, k);
    EarliestWins(actions, |actions|);
    ScanBinds(Addresses(o), st, bs, i);
    ScanGrows(Addresses(o), st, i, |o.symbols|);
    ScanValue(Addresses(o), st, bs, i);
    assert TableAt(actions, k + 1) == ScanTo(Addresses(o), st, |o.symbols|).env;
    NeverRebound(actions, k + 1, |actions|);
  }

  lemma FixupInAll(o: Object, env: Table, i: nat, j: nat)
    requires Loadable(o) && Applies(o, i, j)
    ensures FixupOf(o, env, i, j) in AllFixups(o, env)
    ensures Inside(AllFixups(o, env), Places(o).total)
  {
    hide LayoutOf, ScanTo, Fixups, Inside, Loadable, FixupOf, Applies;
    assert IsEntry(o, env, FixupOf(o, env, i, j), i, j);
    AppliedExactly(o, env, FixupOf(o, env, i, j));
    FixupsInside(o, env, |o.secs|);
  }

  /** What symbol i of an object stands for in a run: the address of its section, its definition's
      image address, or the run's one binding of an import; nothing for the other symbols. */
  function Meaning(o: Object, env: Table, final: Table, i: nat): Option<u64>
    requires Loadable(o) && i < |o.symbols|
  {
    var s := o.symbols[i];
    if s.index.At? && s.index.sec < |o.secs| then
      Some(if s.isSection then Addresses(o)[s.index.sec] else ToU64(s.value + Addresses(o)[s.index.sec]))
    else if Imports(s) && BoundAt(o, env, i) && s.name in final then Some(final[s.name])
    else None
  }

  lemma SymbolMeans(actions: seq<Action>, k: nat, i: nat)
    requires Legal(actions) && k < |actions| && actions[k].LoadModule? && Allowed(actions[k])
    requires i < |actions[k].o.symbols|
    ensures var o, env, final := actions[k].o, TableAt(actions, k), TableAt(actions, |actions|);
            && (Meaning(o, env, final, i).Some? ==>
                  Scanned(o, env).symbols[i].value == Meaning(o, env, final, i).value)
            && (Imports(o.symbols[i]) && BoundAt(o, env, i) ==> Meaning(o, env, final, i).Some?)
  {
    hide Loadable, Addresses, ScanTo, First, BindingsAt, Definitions, BoundAt, TableAt;
    var o, env := actions[k].o, TableAt(actions, k);
    if Imports(o.symbols[i]) {
      if BoundAt(o, env, i) {
        ImportValue(actions, k, i);
      }
    } else {
      EarliestWins(actions, k);
      ScanValue(Addresses(o), Scan(env, o.symbols, o.uninitialised, 0), BindingsAt(actions, k), i);
    }
  }

  /** The place, where it is in the image, holds an instruction of the class the entry is for. */
  predicate SitedAt(f: Fixup, mem: seq<byte>) {
    f.loc + f.Size() <= |mem| ==> Sited(f, mem)
  }

  /** One load: what every applied entry whose place overlaps no other leaves in the image. */
  lemma EntryLinked(o: Object, env: Table, i: nat, j: nat)
    requires Loadable(o) && Applies(o, i, j)
    requires Alone(FixupOf(o, env, i, j), AllFixups(o, env)) && SitedAt(FixupOf(o, env, i, j), CopiedImage(o))
    ensures var f := FixupOf(o, env, i, j);
            && f.loc + f.Size() <= |FinalImage(o, env)|
            && (PageInRange(f, o.base) && f.Outcome(o.base) == 0 ==> Meets(f, o.base, FinalImage(o, env)))
            && (Checked(f.t) ==> (f.Outcome(o.base) == 0 <==> Meets(f, o.base, FinalImage(o, env))))
            && (AnyValue(f.t) ==> Meets(f, o.base, FinalImage(o, env)))
            && Truncated(f.t, Pattern(f.t, Place(o.base, f.loc), f.val), f.CellIn(FinalImage(o, env)))
  {
    hide Loadable, LayoutOf, ScanTo, Fixups, Run, Formula, Sited, Status, Targets, Copied, FixupOf, Applies;
    hide PageInRange, Alone, Truncated, Pattern, Checked, AnyValue, Meets;
    FixupInAll(o, env, i, j);
    LinkCorrect(CopiedImage(o), o.base, AllFixups(o, env));
  }

  /** End to end, for every entry with a symbol whose place overlaps no other: in the image that
      loading leaves behind, an entry that returned 0 meets its formula, a checked one returned 0
      only then, and one that takes any value always meets it. Its S is what the symbol means in the
      run: for an import, the earliest registration or definition anywhere. */
  lemma EntryResolved(actions: seq<Action>, k: nat, i: nat, j: nat)
    requires Legal(actions) && k < |actions| && actions[k].LoadModule? && Allowed(actions[k])
    requires Applies(actions[k].o, i, j)
    requires Alone(FixupOf(actions[k].o, TableAt(actions, k), i, j), AllFixups(actions[k].o, TableAt(actions, k)))
    requires SitedAt(FixupOf(actions[k].o, TableAt(actions, k), i, j), CopiedImage(actions[k].o))
    ensures var o := actions[k].o; var e := o.secs[i].relas[j]; var env := TableAt(actions, k);
            var f, meaning := FixupOf(o, env, i, j), Meaning(o, env, TableAt(actions, |actions|), e.symbol);
            && f.loc + f.Size() <= |FinalImage(o, env)|
            && (meaning.Some? ==> f.val == ToU64(meaning.value + e.addend))
            && (PageInRange(f, o.base) && f.Outcome(o.base) == 0 ==> Meets(f, o.base, FinalImage(o, env)))
            && (Checked(e.t) ==> (f.Outcome(o.base) == 0 <==> Meets(f, o.base, FinalImage(o, env))))
            && (AnyValue(e.t) ==> Meets(f, o.base, FinalImage(o, env)))
  {
    hide Loadable, LayoutOf, ScanTo, Formula, Sited, Status, Targets, Meaning, TableAt, FinalImage;
    hide PageInRange, Alone, Truncated, Pattern, Checked, AnyValue, Meets, AllFixups, CopiedImage, SitedAt;
    EntryLinked(actions[k].o, TableAt(actions, k), i, j);
    SymbolMeans(actions, k, actions[k].o.secs[i].relas[j].symbol);
  }

  // ----- the entry point

  lemma {:induction false} DefinitionsPrefix(addr: seq<u64>, symbols: seq<Symbol>, j: nat, k: nat)
    returns (rest: seq<Binding>)
    requires j <= k <= |symbols|
    ensures Definitions(addr, symbols, k) == Definitions(addr, symbols, j) + rest
  {
    if j == k {
      rest := [];
    } else {
      rest := DefinitionsPrefix(addr, symbols, j, k - 1);
      if Defines(symbols[k - 1], |addr|) {
        rest := rest + [Binding(symbols[k - 1].name, ToU64(symbols[k - 1].value + addr[symbols[k - 1].index.sec]))];
      }
    }
  }

  /** Symbol i of the module loaded by action k is the run's earliest binding of its name. */
  predicate EarliestDefinition(actions: seq<Action>, k: nat, i: nat)
    requires Legal(actions) && k < |actions| && actions[k].LoadModule?
  {
    var o := actions[k].o;
    assert Allowed(actions[k]);
    i < |o.symbols| && Defines(o.symbols[i], |o.secs|)
    && First(BindingsAt(actions, k) + Definitions(Addresses(o), o.symbols, i), o.symbols[i].name).None?
  }

  /** Where no earlier binding has its name, a definition is the first one after its load. */
  lemma FirstInLoad(addr: seq<u64>, symbols: seq<Symbol>, bs: seq<Binding>, i: nat)
    requires i < |symbols| && Defines(symbols[i], |addr|)
    requires First(bs + Definitions(addr, symbols, i), symbols[i].name).None?
    ensures First(bs + Definitions(addr, symbols, |symbols|), symbols[i].name)
         == Some(ToU64(symbols[i].value + addr[symbols[i].index.sec]))
  {
    var s := symbols[i];
    var b := Binding(s.name, ToU64(s.value + addr[s.index.sec]));
    var rest := DefinitionsPrefix(addr, symbols, i + 1, |symbols|);
    var before := bs + Definitions(addr, symbols, i);
    assert Definitions(addr, symbols, i + 1) == Definitions(addr, symbols, i) + [b];
    assert bs + Definitions(addr, symbols, |symbols|) == before + ([b] + rest);
    hide Definitions;
    FirstAppend(before, [b] + rest, s.name);
  }

  lemma BoundInTable(env: Table, bs: seq<Binding>, name: string, v: u64)
    requires Earliest(env, bs) && First(bs, name) == Some(v)
    ensures name in env && env[name] == v
  {
  }

  /** The earliest definition is what the whole run binds. */
  lemma EarliestIsFinal(actions: seq<Action>, k: nat, i: nat)
    requires Legal(actions) && k < |actions| && actions[k].LoadModule? && EarliestDefinition(actions, k, i)
    ensures Loadable(actions[k].o)
    ensures var o := actions[k].o; var s := o.symbols[i]; var final := TableAt(actions, |actions|);
            s.name in final && final[s.name] == ToU64(s.value + Addresses(o)[s.index.sec])
  {
    hide Loadable, Addresses, StepTable, Earliest, Scanned, Definitions, First;
    assert Allowed(actions[k]);
    var o, bs := actions[k].o, BindingsAt(actions, k);
    var s := o.symbols[i];
    FirstInLoad(Addresses(o), o.symbols, bs, i);
    assert BindingsAt(actions, k + 1) == bs + Definitions(Addresses(o), o.symbols, |o.symbols|);
    EarliestWins(actions, k + 1);
    BoundInTable(TableAt(actions, k + 1), BindingsAt(actions, k + 1), s.name,
                 ToU64(s.value + Addresses(o)[s.index.sec]));
    NeverRebound(actions, k + 1, |actions|);
  }

  lemma UnboundInTable(env: Table, bs: seq<Binding>, name: string)
    requires Earliest(env, bs) && First(bs, name).None?
    ensures name !in env
  {
  }

  lemma EntryIs(env: Table, bs: seq<Binding>, name: string)
    requires Earliest(env, bs) && name in env
    requires name == "_start" || (name == "APP_Root" && First(bs, "_start").None?)
    ensures EntryOf(env) == env[name]
  {
    hide First;
    if name == "APP_Root" {
      UnboundInTable(env, bs, "_start");
    }
  }

  /** An offset inside an executable section is an address inside the text. */
  lemma TextAddress(o: Object, sec: nat, value: u64)
    requires Loadable(o) && sec < |o.secs| && value < o.secs[sec].size
    requires ExecInstr in o.secs[sec].flags && Alloc in o.secs[sec].flags
    ensures o.base <= ToU64(value + Addresses(o)[sec]) < o.base + Places(o).text <= o.base + Places(o).roAfterInit
  {
    hide LayoutOf, Total;
    PlacesFit(o);
    LayoutSafe(o.secs);
    assert Class(o.secs[sec].flags) == 0 && Sound(o.secs[sec]);
  }

  /** The entry point lands in protected code: if the run's earliest _start, or without any its
      earliest APP_Root, is defined inside an executable section of a loaded module, the address
      chosen lies in that module's text and so in the range that is protected. */
  lemma EntryProtected(actions: seq<Action>, k: nat, i: nat)
    requires Legal(actions) && k < |actions| && actions[k].LoadModule? && EarliestDefinition(actions, k, i)
    requires var name := actions[k].o.symbols[i].name;
             name == "_start" || (name == "APP_Root" && First(BindingsAt(actions, |actions|), "_start").None?)
    requires var o := actions[k].o; var sec := o.secs[o.symbols[i].index.sec];
             ExecInstr in sec.flags && Alloc in sec.flags && o.symbols[i].value < sec.size
    ensures var o := actions[k].o; var entry := EntryOf(TableAt(actions, |actions|));
            o.base <= entry < o.base + Places(o).text <= o.base + Places(o).roAfterInit
  {
    hide Loadable, Places, Addresses, StepTable, TableAt, First, BindingsAt, Earliest, Definitions, EntryOf;
    assert Allowed(actions[k]);
    var o := actions[k].o;
    var s := o.symbols[i];
    EarliestIsFinal(actions, k, i);
    EarliestWins(actions, |actions|);
    EntryIs(TableAt(actions, |actions|), BindingsAt(actions, |actions|), s.name);
    TextAddress(o, s.index.sec, s.value);
  }

  // ----- the code: the global environment, host registrations and the loading loop of main

  predicate AllLoadable(objs: seq<Object>) {
    forall j :: 0 <= j < |objs| ==> Loadable(objs[j])
  }

  /** The module's image is what loading its object against this table must leave. */
  ghost predicate Ready(mod: Module, o: Object, env: Table)
    requires Loadable(o)
    reads mod, mod.image, if mod.image != null then {mod.image.bytes} else {}
  {
    mod.image != null && mod.image.base == o.base && mod.image.bytes[..] == FinalImage(o, env)
  }

  /** The symbol table after the first k objects. */
  function Tables(objs: seq<Object>, env: Table, k: nat): Table
    requires k <= |objs| && AllLoadable(objs)
  {
    if k == 0 then env else StepTable(Tables(objs, env, k - 1), LoadModule(objs[k - 1]))
  }

  lemma TablesNone(objs: seq<Object>, env: Table)
    requires AllLoadable(objs)
    ensures Tables(objs, env, 0) == env
  {
  }

  lemma TablesNext(objs: seq<Object>, env: Table, k: nat)
    requires AllLoadable(objs) && 0 < k <= |objs|
    ensures Tables(objs, env, k) == StepTable(Tables(objs, env, k - 1), LoadModule(objs[k - 1]))
  {
  }

  class Env {
    const sysEnv: SysEnv
    var mods: seq<Module>

    constructor ()
      ensures fresh(sysEnv) && sysEnv.table == map[] && mods == []
    {
      sysEnv := new SysEnv();
      mods := [];
    }

    method RegisterFunc(name: string, address: u64)
      modifies sysEnv
      ensures sysEnv.table == StepTable(old(sysEnv.table), Register(name, address))
      ensures name in sysEnv.table
      ensures sysEnv.table
           == if name in old(sysEnv.table) then old(sysEnv.table) else old(sysEnv.table)[name := address]
    {
      sysEnv.AddSymbol(name, address);
    }

    method LoadOne(o: Object) returns (mod: Module)
      requires Loadable(o)
      modifies sysEnv
      ensures fresh(mod) && mod.image != null && fresh(mod.image) && fresh(mod.image.bytes)
      ensures Ready(mod, o, old(sysEnv.table))
      ensures sysEnv.table == StepTable(old(sysEnv.table), LoadModule(o))
    {
      hide FinalImage, ScanTo, Places, Addresses, Loadable, LayoutOf;
      mod := new Module(o);
      var start, length := mod.LoadModule(sysEnv);
    }

    /** The loop of main: every object in turn, then the entry point. All images stay as their own
        load left them. */
    method LoadAll(objs: seq<Object>) returns (entry: u64)
      requires AllLoadable(objs)
      modifies this, sysEnv
      ensures sysEnv.table == Tables(objs, old(sysEnv.table), |objs|) && entry == EntryOf(sysEnv.table)
      ensures "_start" !in sysEnv.table && "APP_Root" !in sysEnv.table ==> entry == 0
      ensures |mods| == |objs|
      ensures forall j :: 0 <= j < |objs| ==> Ready(mods[j], objs[j], Tables(objs, old(sysEnv.table), j))
    {
      hide FinalImage, StepTable, Places, Addresses, Loadable, EntryOf, Ready, Tables;
      TablesNone(objs, sysEnv.table);
      mods := [];
      ghost var was := sysEnv.table;
      for i := 0 to |objs|
        invariant |mods| == i && sysEnv.table == Tables(objs, was, i)
        invariant forall j :: 0 <= j < i ==>
                    fresh(mods[j]) && mods[j].image != null && fresh(mods[j].image) && fresh(mods[j].image.bytes)
        invariant forall j :: 0 <= j < i ==> Ready(mods[j], objs[j], Tables(objs, was, j))
      {
        TablesNext(objs, was, i + 1);
        var mod := LoadOne(objs[i]);
        mods := mods + [mod];
      }
      entry := sysEnv.GetEntry();
    }
  }

  /** The loop of main is a run of load actions after the registrations. */
  lemma {:induction false} TablesAreRun(actions: seq<Action>, objs: seq<Object>, n: nat, k: nat)
    requires Legal(actions) && |actions| == n + |objs| && k <= |objs|
    requires forall j :: 0 <= j < |objs| ==> actions[n + j] == LoadModule(objs[j])
    requires AllLoadable(objs)
    ensures Tables(objs, TableAt(actions, n), k) == TableAt(actions, n + k)
  {
    hide StepTable, Loadable;
    if k == 0 {
    } else {
      TablesAreRun(actions, objs, n, k - 1);
    }
  }
}
