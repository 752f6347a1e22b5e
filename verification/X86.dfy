/** The x86_64 relocation engine: it refuses cells that are not zero, and checks the range of
    only two of its relocations (System V AMD64 psABI, section 4.4.1). */
module X86 {
  import opened Bits
  import opened Insn
  import opened Memory
  import Reloc
  import opened Resolve

  datatype RelocType = NONE | ABS64 | ABS32 | ABS32S | PC32 | PLT32 | PC64 | Unknown(code: nat)

  function Width(t: RelocType): nat {
    match t
    case ABS64 => 8
    case PC64 => 8
    case ABS32 => 4
    case ABS32S => 4
    case PC32 => 4
    case PLT32 => 4
    case _ => 0
  }

  /** The psABI value: S + A, or S + A - P. */
  function Value(t: RelocType, place: u64, val: u64): u64 {
    if t.PC32? || t.PLT32? || t.PC64? then ToU64(val - place) else val
  }

  function Stored(t: RelocType, place: u64, val: u64): nat {
    if Width(t) == 8 then Value(t, place, val) else Value(t, place, val) % TWO32
  }

  /** The only range checks the code makes. */
  predicate InRange(t: RelocType, val: u64) {
    match t
    case ABS32 => val < TWO32
    case ABS32S => -0x8000_0000 <= ToI64(val) < 0x8000_0000
    case _ => true
  }

  function Outcome(t: RelocType, cell: nat, val: u64): int {
    if t.Unknown? then -Reloc.ENOEXEC
    else if t.NONE? then 0
    else if cell != 0 || !InRange(t, val) then -Reloc.ENOEXEC
    else 0
  }

  function Patch(mem: seq<byte>, base: nat, loc: nat, t: RelocType, val: u64): (mem': seq<byte>)
    requires loc + Width(t) <= |mem|
    ensures |mem'| == |mem|
  {
    if Width(t) == 0 || Load(mem, loc, Width(t)) != 0 then mem
    else Store(mem, loc, Width(t), Stored(t, Reloc.Place(base, loc), val))
  }

  /** Reading a 32-bit cell as uint32_t and as int32_t against a 64-bit value. */
  lemma WordTests(val: u64)
    ensures val == val % TWO32 <==> val < TWO32
    ensures ToI64(val) == SignExtend(val % TWO32, 32) <==> -0x8000_0000 <= ToI64(val) < 0x8000_0000
  {
    hide Pow2;
    Pow2Table();
  }

  method DoRelocateAdd(t: RelocType, img: Image, loc: nat, v: u64) returns (ret: int)
    requires img.Valid() && loc + Width(t) <= img.bytes.Length
    modifies img.bytes
    ensures img.bytes[..] == Patch(old(img.bytes[..]), img.base, loc, t, v)
    ensures ret == Outcome(t, Load(old(img.bytes[..]), loc, Width(t)), v)
    ensures ret == 0 || ret == -Reloc.ENOEXEC
    ensures t.NONE? ==> ret == 0
    ensures t.Unknown? ==> ret != 0
    ensures t.NONE? || t.Unknown? ==> img.bytes[..] == old(img.bytes[..])
  {
    CellTops();
    hide Load, Store, CellTop, Pow2;
    var val := v;
    var cell := img.LoadCell(loc, Width(t));
    match t {
      case NONE =>
      case ABS64 =>
        if cell != 0 { return -Reloc.ENOEXEC; }
        img.StoreCell(loc, 8, val);
      case ABS32 =>
        if cell != 0 { return -Reloc.ENOEXEC; }
        img.StoreCell(loc, 4, val % TWO32);
        if val != val % TWO32 { return -Reloc.ENOEXEC; }
      case ABS32S =>
        if cell != 0 { return -Reloc.ENOEXEC; }
        img.StoreCell(loc, 4, val % TWO32);
        WordTests(val);
        if ToI64(val) != SignExtend(val % TWO32, 32) { return -Reloc.ENOEXEC; }
      case PC32 =>
        if cell != 0 { return -Reloc.ENOEXEC; }
        val := ToU64(val - (img.base + loc));
        img.StoreCell(loc, 4, val % TWO32);
      case PLT32 =>
        if cell != 0 { return -Reloc.ENOEXEC; }
        val := ToU64(val - (img.base + loc));
        img.StoreCell(loc, 4, val % TWO32);
      case PC64 =>
        if cell != 0 { return -Reloc.ENOEXEC; }
        val := ToU64(val - (img.base + loc));
        img.StoreCell(loc, 8, val);
      case Unknown(_) => return -Reloc.ENOEXEC;
    }
    ret := 0;
  }

  /** What the relocated program reads at the place: an address, by zero or sign extension, or
      relative to the place. */
  function Decoded(t: RelocType, place: u64, cell: nat): u64 {
    match t
    case ABS64 => ToU64(cell)
    case ABS32 => ToU64(cell)
    case ABS32S => ToU64(SignExtend(cell, 32))
    case PC64 => ToU64(place + cell)
    case _ => ToU64(place + SignExtend(cell, 32))
  }

  lemma PatchedCell(mem: seq<byte>, base: nat, loc: nat, t: RelocType, val: u64)
    requires 0 < Width(t) && loc + Width(t) <= |mem| && Load(mem, loc, Width(t)) == 0
    ensures Load(Patch(mem, base, loc, t, val), loc, Width(t)) == Stored(t, Reloc.Place(base, loc), val)
  {
    hide Load, Store, CellTop;
    CellTops();
    LoadStore(mem, loc, Width(t), Stored(t, Reloc.Place(base, loc), val));
  }

  lemma PlaceBack(place: u64, val: u64)
    ensures ToU64(place + ToU64(val - place)) == val
  {
  }

  lemma SignedWord(val: u64)
    ensures ToU64(SignExtend(val % TWO32, 32)) == val <==> ToI64(val) == SignExtend(val % TWO32, 32)
  {
    hide Pow2;
    Pow2Table();
  }

  lemma StoredReads(t: RelocType, place: u64, val: u64)
    requires t in {ABS64, ABS32, ABS32S, PC64}
    ensures Decoded(t, place, Stored(t, place, val)) == val <==> InRange(t, val)
  {
    hide CellTop, SignExtend, ToI64;
    CellTops();
    match t {
      case ABS32S =>
        WordTests(val);
        SignedWord(val);
      case PC64 => PlaceBack(place, val);
      case _ =>
    }
  }

  /** Whatever is returned, a zero cell receives the value, cut to its size. */
  lemma StoredAnyway(mem: seq<byte>, base: nat, loc: nat, t: RelocType, val: u64)
    requires 0 < Width(t) && loc + Width(t) <= |mem| && Load(mem, loc, Width(t)) == 0
    ensures var place := Reloc.Place(base, loc); var cell := Load(Patch(mem, base, loc, t, val), loc, Width(t));
            && (t == ABS64 ==> cell == val)
            && (t == ABS32 || t == ABS32S ==> cell == val % TWO32)
            && (t == PC64 ==> cell == ToU64(val - place))
            && (t == PC32 || t == PLT32 ==> cell == ToU64(val - place) % TWO32)
  {
    hide Load, Patch, CellTop;
    PatchedCell(mem, base, loc, t, val);
  }

  /** From a zero cell the two range checks are exact: 0 is returned if and only if the program
      reads back S + A. The 64-bit relocations always read it back. */
  lemma AbsoluteExact(mem: seq<byte>, base: nat, loc: nat, t: RelocType, val: u64)
    requires t in {ABS64, ABS32, ABS32S, PC64}
    requires loc + Width(t) <= |mem| && Load(mem, loc, Width(t)) == 0
    ensures var place := Reloc.Place(base, loc);
            Outcome(t, 0, val) == 0
            <==> Decoded(t, place, Load(Patch(mem, base, loc, t, val), loc, Width(t))) == val
  {
    hide Load, Patch, CellTop, Decoded, Stored, Reloc.Place, InRange;
    PatchedCell(mem, base, loc, t, val);
    StoredReads(t, Reloc.Place(base, loc), val);
  }

  lemma Low32(u: u64)
    ensures Low(ToI64(u), 32) == u % TWO32
    ensures -TWO32 < SignExtend(u % TWO32, 32) < TWO32
  {
    hide Low, Pow2;
    assert Pow2(32) == TWO32 by { Pow2Table(); }
    LowOfI64(u, 32);
    ShrIsDiv(u, 32);
  }

  lemma WordOfSum(x: int)
    ensures ToU64(x) % TWO32 == x % TWO32
  {
  }

  lemma WordOfDifference(place: u64, val: u64)
    ensures (place + ToU64(val - place) % TWO32) % TWO32 == val % TWO32
  {
    WordOfSum(val - place);
  }

  lemma SameWord(place: u64, u: u64, val: u64)
    requires u == ToU64(val - place)
    ensures ToU64(place + SignExtend(u % TWO32, 32)) % TWO32 == val % TWO32
  {
    hide Pow2, ToU64;
    var c := u % TWO32;
    assert SignExtend(c, 32) == c || SignExtend(c, 32) == c - TWO32 by { Pow2Table(); }
    WordOfDifference(place, val);
    WordOfSum(place + SignExtend(c, 32));
    assert (place + SignExtend(c, 32)) % TWO32 == (place + c) % TWO32;
  }

  lemma RelativeWord(place: u64, val: u64)
    ensures var x, se := ToI64(ToU64(val - place)), SignExtend(ToU64(val - place) % TWO32, 32);
            && (se == x <==> InSigned(x, 32))
            && -TWO32 < se < TWO32 && -TWO63 <= x < TWO63
            && ToU64(place + x) == val
            && ToU64(place + se) % TWO32 == val % TWO32
  {
    hide Low, Pow2, InSigned, ToI64, SignExtend;
    var u := ToU64(val - place);
    var x := ToI64(u);
    I64RangeOf(u);
    Low32(u);
    SignExtendExact(x, 32);
    PrelBack(place, val);
    SameWord(place, u, val);
  }

  /** The 32-bit place-relative relocations report success from every zero cell, but reach S + A
      only modulo 2^32; they reach it exactly when S + A - P is a signed 32-bit number. */
  lemma RelativeExact(mem: seq<byte>, base: nat, loc: nat, t: RelocType, val: u64)
    requires t == PC32 || t == PLT32
    requires loc + 4 <= |mem| && Load(mem, loc, 4) == 0
    ensures var place := Reloc.Place(base, loc);
            var got := Decoded(t, place, Load(Patch(mem, base, loc, t, val), loc, 4));
            && Outcome(t, 0, val) == 0
            && got % TWO32 == val % TWO32
            && (got == val <==> InSigned(ToI64(ToU64(val - place)), 32))
  {
    hide Load, Store, CellTop, SignExtend, InSigned, Pow2, ToI64;
    CellTops();
    var place := Reloc.Place(base, loc);
    var x := ToI64(ToU64(val - place));
    LoadStore(mem, loc, 4, Stored(t, place, val));
    var se := SignExtend(Stored(t, place, val), 32);
    RelativeWord(place, val);
    ModEq(place + se, place + x);
  }

  lemma FarAway(place: u64)
    ensures ToI64(ToU64(ToU64(place + TWO32) - place)) == TWO32 && !InSigned(TWO32, 32)
  {
    hide Pow2;
    Pow2Table();
  }

  /** On every zero cell, an input on which PC32 returns 0 and misses: a target 4 GiB further. */
  lemma RelativeMisses(mem: seq<byte>, base: nat, loc: nat)
    requires loc + 4 <= |mem| && Load(mem, loc, 4) == 0
    ensures var place := Reloc.Place(base, loc); var val := ToU64(place + TWO32);
            Outcome(PC32, Load(mem, loc, 4), val) == 0
            && Decoded(PC32, place, Load(Patch(mem, base, loc, PC32, val), loc, 4)) != val
  {
    hide Load, Patch, Decoded, InSigned;
    var place := Reloc.Place(base, loc);
    RelativeExact(mem, base, loc, PC32, ToU64(place + TWO32));
    FarAway(place);
  }

  /** Replay: a second application never changes the image; it is refused exactly when the first
      one left a nonzero cell or was already refused. */
  lemma ReplayRefused(mem: seq<byte>, base: nat, loc: nat, t: RelocType, val: u64)
    requires loc + Width(t) <= |mem|
    ensures var once := Patch(mem, base, loc, t, val);
            && Patch(once, base, loc, t, val) == once
            && Outcome(t, Load(once, loc, Width(t)), val)
               == if Width(t) > 0 && Load(once, loc, Width(t)) != 0 then -Reloc.ENOEXEC
                  else Outcome(t, Load(mem, loc, Width(t)), val)
  {
    hide Store, CellTop;
    CellTops();
    if Width(t) > 0 && Load(mem, loc, Width(t)) == 0 {
      var c := Stored(t, Reloc.Place(base, loc), val);
      LoadStore(mem, loc, Width(t), c);
      if c == 0 {
        StoreLoaded(Patch(mem, base, loc, t, val), loc, Width(t));
      }
    }
  }
}
