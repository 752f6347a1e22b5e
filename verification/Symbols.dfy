/** The process-wide symbol table and the binding of one module's symbols against it. */
module Symbols {
  import opened Bits
  import opened Insn
  import opened Elf

  type Table = map<string, u64>

  /** emplace: the first binding of a name stays. */
  function Emplace(env: Table, name: string, address: u64): Table {
    if name in env then env else env[name := address]
  }

  datatype Option<T> = None | Some(value: T)

  /** The entry point: _start, else APP_Root, else none. */
  function EntryOf(env: Table): u64 {
    if "_start" in env then env["_start"] else if "APP_Root" in env then env["APP_Root"] else 0
  }

  class SysEnv {
    var table: Table

    constructor ()
      ensures table == map[]
    {
      table := map[];
    }

    method AddSymbol(name: string, address: u64)
      modifies this
      ensures table == Emplace(old(table), name, address)
      ensures table == if name in old(table) then old(table) else old(table)[name := address]
    {
      if name !in table {
        table := table[name := address];
      }
    }

    method GetSymbol(name: string) returns (r: Option<u64>)
      ensures r == if name in table then Some(table[name]) else None
    {
      if name in table {
        return Some(table[name]);
      }
      r := None;
    }

    method GetEntry() returns (address: u64)
      ensures address == EntryOf(table)
      ensures "_start" in table ==> address == table["_start"]
      ensures "_start" !in table && "APP_Root" in table ==> address == table["APP_Root"]
      ensures "_start" !in table && "APP_Root" !in table ==> address == 0
    {
      var start := GetSymbol("_start");
      if start.Some? {
        return start.value;
      }
      var root := GetSymbol("APP_Root");
      if root.Some? {
        return root.value;
      }
      address := 0;
    }
  }

  // ----- one module's symbols

  /** What the loop over a symbol table carries: the table, the symbols, the address variable
      that is left over from one iteration to the next, and the address of Construct. */
  datatype Scan = Scan(env: Table, symbols: seq<Symbol>, newValue: u64, construct: u64)

  function SymbolStep(addr: seq<u64>, st: Scan, i: nat): Scan
    requires i < |st.symbols|
  {
    var s := st.symbols[i];
    if s.isSection then
      if !s.index.At? || s.index.sec >= |addr| then st
      else st.(newValue := addr[s.index.sec], symbols := st.symbols[i := s.(value := addr[s.index.sec])])
    else if s.index.At? then
      if s.index.sec >= |addr| then st
      else
        var v := ToU64(s.value + addr[s.index.sec]);
        Scan(if s.bind == GLOBAL then Emplace(st.env, s.name, v) else st.env,
             st.symbols[i := s.(value := v)], v,
             if s.bind == GLOBAL && s.name == "Construct" then v else st.construct)
    else if s.index == UNDEF && s.bind == GLOBAL then
      if s.name in st.env then
        st.(newValue := st.env[s.name], symbols := st.symbols[i := s.(value := st.env[s.name])])
      else st
    else st.(symbols := st.symbols[i := s.(value := st.newValue)])
  }

  function ScanTo(addr: seq<u64>, st: Scan, k: nat): (r: Scan)
    requires k <= |st.symbols|
    ensures |r.symbols| == |st.symbols|
  {
    if k == 0 then st else SymbolStep(addr, ScanTo(addr, st, k - 1), k - 1)
  }

  method UpdateSymbolAddr(sysEnv: SysEnv, addr: seq<u64>, table: seq<Symbol>, uninitialised: u64, construct0: u64)
    returns (symbols: seq<Symbol>, construct: u64)
    modifies sysEnv
    ensures var r := ScanTo(addr, Scan(old(sysEnv.table), table, uninitialised, construct0), |table|);
            sysEnv.table == r.env && symbols == r.symbols && construct == r.construct
  {
    var newValue: u64 := uninitialised;
    symbols, construct := table, construct0;
    ghost var st := Scan(sysEnv.table, table, uninitialised, construct0);
    for i := 0 to |table|
      invariant |symbols| == |table|
      invariant Scan(sysEnv.table, symbols, newValue, construct) == ScanTo(addr, st, i)
    {
      var s := symbols[i];
      if s.isSection {
        if !s.index.At? || s.index.sec >= |addr| {
          continue;
        }
        newValue := addr[s.index.sec];
      } else if s.index.At? {
        if s.index.sec >= |addr| {
          continue;
        }
        newValue := ToU64(s.value + addr[s.index.sec]);
        if s.bind == GLOBAL {
          sysEnv.AddSymbol(s.name, newValue);
          if s.name == "Construct" {
            construct := newValue;
          }
        }
      } else if s.index == UNDEF && s.bind == GLOBAL {
        var found := sysEnv.GetSymbol(s.name);
        if found.None? {
          continue;
        }
        newValue := found.value;
      }
      symbols := symbols[i := s.(value := newValue)];
    }
  }

  // ----- what the loop means

  /** A global symbol with an ordinary section: a definition for every module to come. */
  predicate Defines(s: Symbol, sections: nat) {
    !s.isSection && s.index.At? && s.index.sec < sections && s.bind == GLOBAL
  }

  predicate Imports(s: Symbol) {
    !s.isSection && s.index == UNDEF && s.bind == GLOBAL
  }

  datatype Binding = Binding(name: string, address: u64)

  /** The definitions among the first k symbols, in table order. */
  function Definitions(addr: seq<u64>, symbols: seq<Symbol>, k: nat): seq<Binding>
    requires k <= |symbols|
  {
    if k == 0 then []
    else if Defines(symbols[k - 1], |addr|) then
      Definitions(addr, symbols, k - 1)
      + [Binding(symbols[k - 1].name, ToU64(symbols[k - 1].value + addr[symbols[k - 1].index.sec]))]
    else Definitions(addr, symbols, k - 1)
  }

  /** The address of the earliest binding of a name. */
  function First(bs: seq<Binding>, name: string): Option<u64> {
    if bs == [] then None
    else if bs[0].name == name then Some(bs[0].address)
    else First(bs[1..], name)
  }

  /** A table that holds, for every name, its earliest binding. */
  ghost predicate Earliest(env: Table, bs: seq<Binding>) {
    forall name :: First(bs, name) == if name in env then Some(env[name]) else None
  }

  lemma {:induction false} FirstAppend(a: seq<Binding>, b: seq<Binding>, name: string)
    ensures First(a + b, name) == if First(a, name).Some? then First(a, name) else First(b, name)
  {
    if a == [] {
      assert a + b == b;
    } else {
      FirstAppend(a[1..], b, name);
      assert (a + b)[1..] == a[1..] + b;
    }
  }

  lemma EmplaceKeepsEarliest(env: Table, bs: seq<Binding>, b: Binding)
    requires Earliest(env, bs)
    ensures Earliest(Emplace(env, b.name, b.address), bs + [b])
  {
    forall name
      ensures First(bs + [b], name)
           == var e := Emplace(env, b.name, b.address); if name in e then Some(e[name]) else None
    {
      FirstAppend(bs, [b], name);
      assert First([b], name) == if b.name == name then Some(b.address) else None by {
        assert [b][1..] == [];
      }
    }
  }

  /** No symbol changes before its turn. */
  lemma {:induction false} ScanLeaves(addr: seq<u64>, st: Scan, k: nat)
    requires k <= |st.symbols|
    ensures forall i :: k <= i < |st.symbols| ==> ScanTo(addr, st, k).symbols[i] == st.symbols[i]
  {
    if k == 0 {
    } else {
      ScanLeaves(addr, st, k - 1);
    }
  }

  /** The scan of a table adds its definitions after all earlier bindings. */
  lemma {:induction false} ScanBinds(addr: seq<u64>, st: Scan, bs: seq<Binding>, k: nat)
    requires k <= |st.symbols| && Earliest(st.env, bs)
    ensures Earliest(ScanTo(addr, st, k).env, bs + Definitions(addr, st.symbols, k))
  {
    if k == 0 {
      assert bs + [] == bs;
    } else {
      hide Earliest, First;
      ScanBinds(addr, st, bs, k - 1);
      ScanLeaves(addr, st, k - 1);
      var s, p := st.symbols[k - 1], ScanTo(addr, st, k - 1);
      if Defines(s, |addr|) {
        var b := Binding(s.name, ToU64(s.value + addr[s.index.sec]));
        EmplaceKeepsEarliest(p.env, bs + Definitions(addr, st.symbols, k - 1), b);
        assert bs + Definitions(addr, st.symbols, k) == bs + Definitions(addr, st.symbols, k - 1) + [b];
      }
    }
  }

  predicate Grows(a: Table, b: Table) {
    forall name :: name in a ==> name in b && b[name] == a[name]
  }

  /** Scanning further never rebinds a name and never touches a symbol already scanned. */
  lemma {:induction false} ScanGrows(addr: seq<u64>, st: Scan, j: nat, k: nat)
    requires j <= k <= |st.symbols|
    ensures Grows(ScanTo(addr, st, j).env, ScanTo(addr, st, k).env)
    ensures forall i :: 0 <= i < j ==> ScanTo(addr, st, k).symbols[i] == ScanTo(addr, st, j).symbols[i]
  {
    if j == k {
    } else {
      ScanGrows(addr, st, j, k - 1);
    }
  }

  /** The values the scan leaves: sections and definitions at their section's address, an import
      at the binding the final table still has, and an import without a binding as it was. */
  lemma ScanValue(addr: seq<u64>, st: Scan, bs: seq<Binding>, i: nat)
    requires i < |st.symbols| && Earliest(st.env, bs)
    ensures var r := ScanTo(addr, st, |st.symbols|); var s := st.symbols[i];
            var before := First(bs + Definitions(addr, st.symbols, i), s.name);
            && r.symbols[i] == s.(value := r.symbols[i].value)
            && (s.index.At? && s.index.sec < |addr| ==>
                 r.symbols[i].value == if s.isSection then addr[s.index.sec] else ToU64(s.value + addr[s.index.sec]))
            && (Imports(s) && before.Some? ==>
                 r.symbols[i].value == before.value && s.name in r.env && r.env[s.name] == before.value)
            && (Imports(s) && before.None? ==> r.symbols[i].value == s.value)
  {
    hide Definitions, First;
    ScanBinds(addr, st, bs, i);
    ScanLeaves(addr, st, i);
    ScanGrows(addr, st, i + 1, |st.symbols|);
    ScanGrows(addr, st, i, |st.symbols|);
  }

  // ----- the same, said from the symbols' own fields

  /** A global symbol of that name in an ordinary, existing section. */
  predicate Named(s: Symbol, sections: nat, name: string) {
    s.name == name && !s.isSection && s.bind == GLOBAL && s.index.At? && s.index.sec < sections
  }

  /** The first and the last such symbol below k, and -1 if there is none. */
  function FirstNamed(symbols: seq<Symbol>, sections: nat, name: string, k: nat): (i: int)
    requires k <= |symbols|
    ensures -1 <= i < k && (i >= 0 ==> Named(symbols[i], sections, name))
    ensures forall j :: 0 <= j < k && (i < 0 || j < i) ==> !Named(symbols[j], sections, name)
  {
    if k == 0 then -1
    else
      var i := FirstNamed(symbols, sections, name, k - 1);
      if i >= 0 then i else if Named(symbols[k - 1], sections, name) then k - 1 else -1
  }

  function LastNamed(symbols: seq<Symbol>, sections: nat, name: string, k: nat): (i: int)
    requires k <= |symbols|
    ensures -1 <= i < k && (i >= 0 ==> Named(symbols[i], sections, name))
    ensures forall j :: i < j < k ==> !Named(symbols[j], sections, name)
  {
    if k == 0 then -1
    else if Named(symbols[k - 1], sections, name) then k - 1
    else LastNamed(symbols, sections, name, k - 1)
  }

  /** After the scan an old binding stays; otherwise the first symbol of the name gives its value
      plus its section's address; and otherwise the name is not bound. */
  lemma {:induction false} TableAfter(addr: seq<u64>, st: Scan, k: nat, name: string)
    requires k <= |st.symbols|
    ensures var env, i := ScanTo(addr, st, k).env, FirstNamed(st.symbols, |addr|, name, k);
            if name in st.env then name in env && env[name] == st.env[name]
            else if i >= 0 then
              name in env && env[name] == ToU64(st.symbols[i].value + addr[st.symbols[i].index.sec])
            else name !in env
  {
    hide ToU64;
    if k == 0 {
    } else {
      TableAfter(addr, st, k - 1, name);
      ScanLeaves(addr, st, k - 1);
    }
  }

  /** The address of Construct is that of the last symbol of that name, and what it was before the
      scan if there is none. */
  lemma {:induction false} ConstructAfter(addr: seq<u64>, st: Scan, k: nat)
    requires k <= |st.symbols|
    ensures var i := LastNamed(st.symbols, |addr|, "Construct", k);
            ScanTo(addr, st, k).construct
            == if i >= 0 then ToU64(st.symbols[i].value + addr[st.symbols[i].index.sec]) else st.construct
  {
    hide ToU64;
    if k == 0 {
    } else {
      ConstructAfter(addr, st, k - 1);
      ScanLeaves(addr, st, k - 1);
    }
  }

  /** A global undefined symbol takes the binding its name has when its turn comes, and keeps its
      value if there is none. */
  lemma ImportAfter(addr: seq<u64>, st: Scan, i: nat)
    requires i < |st.symbols| && !st.symbols[i].isSection
    requires st.symbols[i].index == UNDEF && st.symbols[i].bind == GLOBAL
    ensures var env := ScanTo(addr, st, i).env; var s := st.symbols[i];
            ScanTo(addr, st, |st.symbols|).symbols[i].value == if s.name in env then env[s.name] else s.value
  {
    ScanLeaves(addr, st, i);
    ScanGrows(addr, st, i + 1, |st.symbols|);
  }
}
