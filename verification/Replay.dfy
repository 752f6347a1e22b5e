/** Relocation passes over places that may overlap: which entry each bit of the final image comes
    from, and when a second pass changes nothing. */
module Replay {
  import opened Bits
  import opened Insn
  import opened Memory
  import opened Reloc
  import opened Pass

  lemma SetFieldSame(w: nat, s: nat, k: nat, v: nat)
    requires v < Pow2(k) && Field(w, s, k) == v
    ensures SetField(w, s, k, v) == w
  {
    hide Low, Shr, Shl, Pow2;
    Recompose(w, s);
    Recompose(Shr(w, s), k);
    ShrShr(w, s, k);
    ShlAdd(v, Shl(Shr(w, s + k), k), s);
    ShlShl(Shr(w, s + k), k, s);
  }

  /** The opcode bits, once chosen, stay chosen when the immediate is written. */
  lemma OpcodeTwice(x: int, signed: bool, w: u32, imm: u64)
    ensures var w' := EncodeImmediate(Imm16, MovwOpcode(x, signed, w), imm); MovwOpcode(x, signed, w') == w'
  {
    hide Low, Shr, Shl, Pow2, SetField, EncodeImmediate;
    var w0 := MovwOpcode(x, signed, w);
    var w' := EncodeImmediate(Imm16, w0, imm);
    if signed {
      var opc := if x >= 0 then 2 else 0;
      assert opc < Pow2(2) by { Pow2Table(); }
      FieldOfSet(w, 29, 2, opc);
      if w0 == AARCH64_BREAK_FAULT {
        EncodeBreak(Imm16, imm);
      } else {
        EncodeIsSetField(Imm16, w0, imm);
        FieldOfSet(w0, 5, 16, Low(imm, 16));
        FieldAbove(w0, w', 21, 29, 2);
      }
      SetFieldSame(w', 29, 2, opc);
    }
  }

  /** Patching a patched cell changes nothing. */
  lemma PatchTwice(h: Howto, place: u64, val: u64, cell: nat)
    requires WellFormed(h) && cell < CellTop(Width(h))
    ensures Cell(h, place, val, cell) < CellTop(Width(h))
    ensures Cell(h, place, val, Cell(h, place, val, cell)) == Cell(h, place, val, cell)
  {
    CellTops();
    hide CellTop, EncodeImmediate, MovwOpcode, MovwImm, DoReloc, Low, Shr, Pow2;
    CellBound(h, place, val, cell);
    var x := Value(OpOf(h), place, val);
    match h {
      case Movw(_, group, signed) =>
        var imm := MovwImm(x, group, signed);
        OpcodeTwice(x, signed, cell, imm);
        EncodeTwice(Imm16, MovwOpcode(x, signed, cell), imm);
      case Imm(_, lsb, len, imt) =>
        Pow2Table();
        Pow2Mono(len, 64);
        EncodeTwice(imt, cell, Low(Shr(x, lsb), len));
      case _ =>
    }
  }

  lemma PatchedTwice(f: Fixup, base: nat, cell: nat)
    ensures f.Patched(base, f.Patched(base, cell)) == f.Patched(base, cell)
  {
    HowtoWellFormed(f.t);
    if cell < CellTop(f.Size()) {
      PatchTwice(HowtoOf(f.t), Place(base, f.loc), f.val, cell);
    }
  }

  // ----- one relocation, bit by bit

  /** Bit k of a word. */
  function Bit(x: nat, k: nat): nat {
    Field(x, k, 1)
  }

  lemma {:induction false} SameBits(x: nat, y: nat, n: nat)
    requires x < Pow2(n) && y < Pow2(n)
    requires forall k :: 0 <= k < n ==> Bit(x, k) == Bit(y, k)
    ensures x == y
  {
    if n == 0 {
    } else {
      assert Bit(x, 0) == x % 2 && Bit(y, 0) == y % 2;
      forall k | 0 <= k < n - 1
        ensures Bit(x / 2, k) == Bit(y / 2, k)
      {
        assert Bit(x, k + 1) == Bit(x / 2, k) && Bit(y, k + 1) == Bit(y / 2, k);
      }
      SameBits(x / 2, y / 2, n - 1);
    }
  }

  lemma BitOfLow(w: nat, n: nat, k: nat)
    requires k < n
    ensures Bit(Low(w, n), k) == Bit(w, k)
  {
    hide Low, Shr, Pow2;
    LowSmall(Low(w, n), n);
    FieldBelow(w, Low(w, n), n, k, 1);
  }

  lemma BitOfShr(w: nat, n: nat, k: nat)
    ensures Bit(Shr(w, n), k) == Bit(w, n + k)
  {
    hide Low;
    ShrShr(w, n, k);
  }

  lemma BitOfSet(w: nat, s: nat, k: nat, v: nat, j: nat)
    requires v < Pow2(k)
    ensures Bit(SetField(w, s, k, v), j) == if s <= j < s + k then Bit(v, j - s) else Bit(w, j)
  {
    hide Low, Shr, Pow2, SetField;
    var x := SetField(w, s, k, v);
    FieldOfSet(w, s, k, v);
    if j < s {
      FieldBelow(x, w, s, j, 1);
    } else if j < s + k {
      BitOfLow(Shr(x, s), k, j - s);
      BitOfShr(x, s, j - s);
    } else {
      FieldAbove(x, w, s + k, j, 1);
    }
  }

  lemma BitOfAdr(w: u32, lo: nat, hi: nat, j: nat)
    requires lo < Pow2(2) && hi < Pow2(19)
    ensures Bit(SetAdr(w, lo, hi), j)
         == if 29 <= j < 31 then Bit(lo, j - 29) else if 5 <= j < 24 then Bit(hi, j - 5) else Bit(w, j)
  {
    hide Low, Shr, Pow2, SetField, SetAdr, Bit;
    var x := SetAdr(w, lo, hi);
    SetAdrParts(w, lo, hi);
    if j < 24 {
      BitOfLow(x, 24, j);
      BitOfLow(w, 24, j);
      BitOfSet(Low(w, 24), 5, 19, hi, j);
    } else {
      BitOfShr(x, 24, j - 24);
      BitOfShr(w, 24, j - 24);
      BitOfSet(Shr(w, 24), 5, 2, lo, j - 24);
    }
  }

  /** Bit j of a word belongs to the immediate. */
  predicate InImm(imt: ImmType, j: nat)
    requires imt != ImmMax
  {
    if imt == Adr then 29 <= j < 31 || 5 <= j < 24
    else ImmShift(imt) <= j < ImmShift(imt) + ImmWidth(imt)
  }

  /** Encoding gives the immediate's bits the same values in every word it does not refuse. */
  lemma EncodeBits(imt: ImmType, w: u32, imm: u64, j: nat)
    requires imt != ImmMax && w != AARCH64_BREAK_FAULT
    ensures Bit(EncodeImmediate(imt, w, imm), j)
         == if InImm(imt, j) then Bit(EncodeImmediate(imt, 0, imm), j) else Bit(w, j)
  {
    hide Low, Shr, Pow2, SetField, SetAdr, Bit, EncodeImmediate;
    if imt == Adr {
      EncodeAdr(w, imm);
      EncodeAdr(0, imm);
      BitOfAdr(w, Low(imm, 2), Low(Shr(imm, 2), 19), j);
      BitOfAdr(0, Low(imm, 2), Low(Shr(imm, 2), 19), j);
    } else {
      var s, k := ImmShift(imt), ImmWidth(imt);
      EncodeIsSetField(imt, w, imm);
      EncodeIsSetField(imt, 0, imm);
      BitOfSet(w, s, k, Low(imm, k), j);
      BitOfSet(0, s, k, Low(imm, k), j);
    }
  }

  /** The guard of the encoder: after its opcode is chosen, the word is the fault marker. */
  predicate Refuses(h: Howto, x: int, cell: nat) {
    match h
    case Movw(_, _, signed) => cell < TWO32 && MovwOpcode(x, signed, cell) == AARCH64_BREAK_FAULT
    case Imm(_, _, _, _) => cell == AARCH64_BREAK_FAULT
    case _ => false
  }

  /** The bits of its cell that a relocation writes. */
  predicate Owns(h: Howto, refused: bool, j: nat)
    requires WellFormed(h)
  {
    match h
    case Data(_, size) => true
    case Movw(_, _, signed) => (signed && 29 <= j < 31) || (!refused && InImm(Imm16, j))
    case Imm(_, _, _, imt) => !refused && InImm(imt, j)
    case _ => false
  }

  lemma OpcodeOfZero(opc: nat)
    requires opc == 0 || opc == 2
    ensures opc < Pow2(2) && SetField(0, 29, 2, opc) != AARCH64_BREAK_FAULT
  {
    hide Low, Shr, Pow2, Shl;
    assert Pow2(2) == 4 && Pow2(29) == 0x20000000 && Pow2(31) == 0x80000000 by { Pow2Table(); }
    LowSmall(0, 29);
    LowSmall(0, 31);
    ShlIsMul(opc, 29);
    ShlZero(31);
  }

  lemma OpcodeBits(x: int, w: u32, j: nat)
    ensures Bit(MovwOpcode(x, true, w), j) == if 29 <= j < 31 then Bit(MovwOpcode(x, true, 0), j) else Bit(w, j)
    ensures MovwOpcode(x, true, 0) != AARCH64_BREAK_FAULT
  {
    hide Low, Shr, Pow2, SetField, Bit;
    var opc := if x >= 0 then 2 else 0;
    assert opc < Pow2(2) by { Pow2Table(); }
    BitOfSet(w, 29, 2, opc, j);
    BitOfSet(0, 29, 2, opc, j);
    OpcodeOfZero(opc);
  }

  lemma WideBits(x: int, signed: bool, imm: u64, w: u32, j: nat)
    ensures var w' := EncodeImmediate(Imm16, MovwOpcode(x, signed, w), imm);
            var blank := EncodeImmediate(Imm16, MovwOpcode(x, signed, 0), imm);
            var refused := MovwOpcode(x, signed, w) == AARCH64_BREAK_FAULT;
            Bit(w', j) == if (signed && 29 <= j < 31) || (!refused && InImm(Imm16, j)) then Bit(blank, j) else Bit(w, j)
  {
    hide EncodeImmediate, MovwOpcode, Bit;
    var w0, b0 := MovwOpcode(x, signed, w), MovwOpcode(x, signed, 0);
    if signed {
      OpcodeBits(x, w, j);
    } else {
      UnsignedOpcode(x, w);
      UnsignedOpcode(x, 0);
    }
    EncodeBits(Imm16, b0, imm, j);
    if w0 == AARCH64_BREAK_FAULT {
      EncodeBreak(Imm16, imm);
    } else {
      EncodeBits(Imm16, w0, imm, j);
    }
  }

  /** Each bit a relocation writes gets a value of the relocation's own, each other bit stays. */
  lemma CellBits(h: Howto, place: u64, val: u64, cell: nat, j: nat)
    requires WellFormed(h) && cell < CellTop(Width(h))
    ensures Bit(Cell(h, place, val, cell), j)
         == if Owns(h, Refuses(h, Value(OpOf(h), place, val), cell), j) then Bit(Cell(h, place, val, 0), j)
            else Bit(cell, j)
  {
    CellTops();
    hide CellTop, EncodeImmediate, MovwOpcode, MovwImm, DoReloc, Low, Shr, Pow2, Bit, InImm;
    var x := Value(OpOf(h), place, val);
    match h {
      case Movw(_, group, signed) =>
        var imm := MovwImm(x, group, signed);
        WideBits(x, signed, imm, cell, j);
      case Imm(_, lsb, len, imt) =>
        Pow2Table();
        Pow2Mono(len, 64);
        EncodeBreak(imt, Low(Shr(x, lsb), len));
        if cell != AARCH64_BREAK_FAULT {
          EncodeBits(imt, cell, Low(Shr(x, lsb), len), j);
        }
      case _ =>
    }
  }

  // ----- a pass, bit by bit

  lemma {:induction false} BitOfCell(mem: seq<byte>, off: nat, n: nat, i: nat, b: nat)
    requires off + n <= |mem| && i < n && b < 8
    ensures Bit(Load(mem, off, n), 8 * i + b) == Bit(mem[off + i], b)
    decreases n
  {
    hide Bit, Low, Shr, Shl;
    var rest := Load(mem, off + 1, n - 1);
    assert Pow2(8) == 0x100 by { Pow2Table(); }
    ShlIsMul(rest, 8);
    Parts(Load(mem, off, n), 8, mem[off], rest);
    if i == 0 {
      BitOfLow(Load(mem, off, n), 8, b);
    } else {
      BitOfShr(Load(mem, off, n), 8, 8 * (i - 1) + b);
      BitOfCell(mem, off + 1, n - 1, i - 1, b);
    }
  }

  /** The encoder refuses what entry f finds in the image. */
  predicate RefusedAt(f: Fixup, base: nat, mem: seq<byte>)
    requires f.loc + f.Size() <= |mem|
  {
    Refuses(HowtoOf(f.t), Value(OpOf(HowtoOf(f.t)), Place(base, f.loc), f.val), f.CellIn(mem))
  }

  /** Entry f writes bit b of byte i. */
  predicate Writes(f: Fixup, refused: bool, i: nat, b: nat) {
    HowtoWellFormed(f.t);
    f.Covers(i) && Owns(HowtoOf(f.t), refused, 8 * (i - f.loc) + b)
  }

  /** The value entry f gives that bit: the one it leaves in a blank cell. */
  function Gives(f: Fixup, base: nat, i: nat, b: nat): nat
    requires f.Covers(i)
  {
    Bit(f.Patched(base, 0), 8 * (i - f.loc) + b)
  }

  lemma ApplyBits(mem: seq<byte>, base: nat, f: Fixup, i: nat, b: nat)
    requires f.loc + f.Size() <= |mem| && i < |mem| && b < 8
    ensures Bit(Apply(mem, base, f)[i], b)
         == if Writes(f, RefusedAt(f, base, mem), i, b) then Gives(f, base, i, b) else Bit(mem[i], b)
  {
    hide Bit, Cell, Owns, Refuses, Load, Apply, CellTop, HowtoOf;
    HowtoWellFormed(f.t);
    ApplyStep(mem, base, f);
    if f.Covers(i) {
      LoadBound(mem, f.loc, f.Size());
      BitOfCell(mem, f.loc, f.Size(), i - f.loc, b);
      BitOfCell(Apply(mem, base, f), f.loc, f.Size(), i - f.loc, b);
      CellBits(HowtoOf(f.t), Place(base, f.loc), f.val, f.CellIn(mem), 8 * (i - f.loc) + b);
    }
  }

  /** Which entries of a pass the encoder refuses, each when its turn comes. */
  function Refusals(mem: seq<byte>, base: nat, fs: seq<Fixup>): (r: seq<bool>)
    requires Inside(fs, |mem|)
    ensures |r| == |fs|
    decreases |fs|
  {
    if fs == [] then []
    else
      var n := |fs| - 1;
      assert forall f :: f in fs[..n] ==> f in fs;
      assert fs[n] in fs;
      Refusals(mem, base, fs[..n]) + [RefusedAt(fs[n], base, Run(mem, base, fs[..n]))]
  }

  /** The last entry to write a bit, and -1 if none does. */
  function LastWriter(fs: seq<Fixup>, refused: seq<bool>, i: nat, b: nat): (k: int)
    requires |fs| == |refused|
    ensures -1 <= k < |fs|
    ensures k >= 0 ==> fs[k].Covers(i)
    decreases |fs|
  {
    if fs == [] then -1
    else
      var n := |fs| - 1;
      if Writes(fs[n], refused[n], i, b) then n else LastWriter(fs[..n], refused[..n], i, b)
  }

  /** Every bit of the final image, for any entries whatever: what its last writer gives it, or
      what it was. */
  lemma {:induction false} BitsOfRun(mem: seq<byte>, base: nat, fs: seq<Fixup>, i: nat, b: nat)
    requires Inside(fs, |mem|) && i < |mem| && b < 8
    ensures var k := LastWriter(fs, Refusals(mem, base, fs), i, b);
            Bit(Run(mem, base, fs)[i], b) == if k >= 0 then Gives(fs[k], base, i, b) else Bit(mem[i], b)
    decreases |fs|
  {
    hide Bit, Gives, RefusedAt, Writes, Apply, Fixup.Size;
    if fs == [] {
      assert Run(mem, base, fs) == mem;
    } else {
      var n := |fs| - 1;
      assert forall f :: f in fs[..n] ==> f in fs;
      assert fs[n] in fs;
      BitsOfRun(mem, base, fs[..n], i, b);
      ApplyBits(Run(mem, base, fs[..n]), base, fs[n], i, b);
      assert Refusals(mem, base, fs)[..n] == Refusals(mem, base, fs[..n]);
    }
  }

  // ----- replay

  /** What the first pass leaves in a bit. */
  function FirstBit(mem: seq<byte>, base: nat, fs: seq<Fixup>, i: nat, b: nat): nat
    requires Inside(fs, |mem|) && i < |mem|
  {
    var k := LastWriter(fs, Refusals(mem, base, fs), i, b);
    if k >= 0 then Gives(fs[k], base, i, b) else Bit(mem[i], b)
  }

  /** Wherever the refusals of the second pass change which entry writes a bit last, the new last
      writer gives it the same value. */
  predicate Settled(mem: seq<byte>, base: nat, fs: seq<Fixup>)
    requires Inside(fs, |mem|)
  {
    var first, second := Refusals(mem, base, fs), Refusals(Run(mem, base, fs), base, fs);
    forall i, b :: 0 <= i < |mem| && 0 <= b < 8 ==>
      var k := LastWriter(fs, second, i, b);
      k == LastWriter(fs, first, i, b) || k < 0 || Gives(fs[k], base, i, b) == FirstBit(mem, base, fs, i, b)
  }

  /** Exactly when a second pass changes nothing, for any entries, overlapping or repeated. */
  lemma ReplayExact(mem: seq<byte>, base: nat, fs: seq<Fixup>)
    requires Inside(fs, |mem|)
    ensures Run(Run(mem, base, fs), base, fs) == Run(mem, base, fs) <==> Settled(mem, base, fs)
  {
    hide Bit, Gives, Refusals, LastWriter, Run, Fixup.Size;
    var once := Run(mem, base, fs);
    var twice := Run(once, base, fs);
    forall i, b | 0 <= i < |mem| && 0 <= b < 8
      ensures Bit(once[i], b) == FirstBit(mem, base, fs, i, b)
      ensures var k := LastWriter(fs, Refusals(once, base, fs), i, b);
              Bit(twice[i], b) == if k >= 0 then Gives(fs[k], base, i, b) else Bit(once[i], b)
    {
      BitsOfRun(mem, base, fs, i, b);
      BitsOfRun(once, base, fs, i, b);
    }
    if Settled(mem, base, fs) {
      forall i | 0 <= i < |mem|
        ensures twice[i] == once[i]
      {
        assert Pow2(8) == 0x100 by { Pow2Table(); }
        SameBits(twice[i], once[i], 8);
      }
    }
  }

  /** Replay changes nothing if the encoder refuses the same entries in both passes, in particular
      if it refuses none. */
  lemma ReplaySameRefusals(mem: seq<byte>, base: nat, fs: seq<Fixup>)
    requires Inside(fs, |mem|)
    requires Refusals(mem, base, fs) == Refusals(Run(mem, base, fs), base, fs)
    ensures Run(Run(mem, base, fs), base, fs) == Run(mem, base, fs)
  {
    hide Run, Refusals, LastWriter;
    ReplayExact(mem, base, fs);
  }

  // ----- a condition on the entries alone

  /** No place of an instruction overlaps another place; data places may overlap, and any entry
      may be repeated. */
  predicate InstructionsApart(fs: seq<Fixup>) {
    forall f :: f in fs && PatchesCode(f) ==> Alone(f, fs)
  }

  /** Data entries write the same bits in every pass. */
  lemma {:induction false} DataWriters(fs: seq<Fixup>, r: seq<bool>, r': seq<bool>, i: nat, b: nat)
    requires |fs| == |r| == |r'|
    requires forall f :: f in fs && f.Covers(i) ==> !PatchesCode(f)
    ensures LastWriter(fs, r, i, b) == LastWriter(fs, r', i, b)
    decreases |fs|
  {
    if fs == [] {
    } else {
      var n := |fs| - 1;
      assert fs[n] in fs && forall f :: f in fs[..n] ==> f in fs;
      DataWriters(fs[..n], r[..n], r'[..n], i, b);
    }
  }

  /** The cell of an entry apart from all other places ends as one patch of what it was. */
  lemma {:induction false} ApartCell(mem: seq<byte>, base: nat, fs: seq<Fixup>, f: Fixup)
    requires Inside(fs, |mem|) && f.loc + f.Size() <= |mem| && Alone(f, fs)
    ensures f.CellIn(Run(mem, base, fs))
         == if f in fs then f.Patched(base, f.CellIn(mem)) else f.CellIn(mem)
    decreases |fs|
  {
    hide Fixup.Patched, Fixup.CellIn, Apply, Fixup.Size;
    if fs == [] {
      RunNone(mem, base);
    } else {
      var n := |fs| - 1;
      assert fs[n] in fs && forall g :: g in fs[..n] ==> g in fs;
      var m1 := Run(mem, base, fs[..n]);
      ApartCell(mem, base, fs[..n], f);
      ApplyStep(m1, base, fs[n]);
      assert fs == fs[..n] + [fs[n]];
      if f == fs[n] {
        PatchedTwice(f, base, f.CellIn(mem));
      } else {
        SameCell(f, Apply(m1, base, fs[n]), m1);
      }
    }
  }

  /** Where no place of an instruction overlaps another place, a second pass changes nothing,
      failed entries and fault markers included. */
  lemma Replay(mem: seq<byte>, base: nat, fs: seq<Fixup>)
    requires Inside(fs, |mem|) && InstructionsApart(fs)
    ensures Run(Run(mem, base, fs), base, fs) == Run(mem, base, fs)
  {
    hide Run, Bit, Gives, Refusals, LastWriter, Fixup.Size, Fixup.Patched, PatchesCode;
    var once := Run(mem, base, fs);
    var twice := Run(once, base, fs);
    forall i | 0 <= i < |mem|
      ensures twice[i] == once[i]
    {
      if f :| f in fs && PatchesCode(f) && f.Covers(i) {
        ApartCell(mem, base, fs, f);
        ApartCell(once, base, fs, f);
        PatchedTwice(f, base, f.CellIn(mem));
        SameBytes(f, twice, once, i);
      } else {
        forall b | 0 <= b < 8
          ensures Bit(twice[i], b) == Bit(once[i], b)
        {
          BitsOfRun(mem, base, fs, i, b);
          BitsOfRun(once, base, fs, i, b);
          DataWriters(fs, Refusals(mem, base, fs), Refusals(once, base, fs), i, b);
        }
        assert Pow2(8) == 0x100 by { Pow2Table(); }
        SameBits(twice[i], once[i], 8);
      }
    }
  }

  // ----- an input on which it fails

  lemma LowOfZero()
    ensures Shr(0, 2) == 0 && Low(0, 26) == 0
  {
    assert Shr(0, 1) == 0;
    LowSmall(0, 26);
  }

  /** A JUMP26 for its own place writes the offset 0. */
  lemma JumpCell(base: u64, w: u32)
    ensures Fixup(JUMP26, 0, base).Size() == 4 && Fixup(ABS16, 0, 0).Size() == 2
    ensures Fixup(JUMP26, 0, base).Patched(base, w) == EncodeImmediate(Imm26, w, 0)
  {
    hide EncodeImmediate, CellTop, Pow2, Low, Shr;
    CellTops();
    LowOfZero();
    assert Place(base, 0) == base && Value(OpPrel, base, base) == 0;
    assert Cell(Imm(OpPrel, 2, 26, Imm26), base, base, w) == ImmWord(0, 2, 26, Imm26, w);
  }

  lemma WordOf(mem: seq<byte>)
    requires |mem| == 4
    ensures Load(mem, 0, 4)
            == mem[0] + 0x100 * (mem[1] as int) + 0x10000 * (mem[2] as int) + 0x1000000 * (mem[3] as int)
  {
    assert Load(mem, 2, 2) == mem[2] + 0x100 * (mem[3] as int) by { assert Load(mem, 4, 0) == 0; }
    assert Load(mem, 1, 3) == mem[1] + 0x100 * Load(mem, 2, 2);
  }

  lemma ApplyIsStore(mem: seq<byte>, base: nat, f: Fixup)
    requires 0 < f.Size() && f.loc + f.Size() <= |mem|
    ensures Apply(mem, base, f) == Store(mem, f.loc, f.Size(), f.Patched(base, f.CellIn(mem)))
  {
    hide Cell, Store;
    LoadBound(mem, f.loc, f.Size());
  }

  lemma ClearLow(mem: seq<byte>, base: u64, m1: seq<byte>, data: Fixup)
    requires |mem| == 4 && m1 == [0, 0] + mem[2..]
    requires data == Fixup(ABS16, 0, 0) && data.Size() == 2
    ensures Apply(mem, base, data) == m1
  {
    hide Load;
    CellTops();
    LoadBound(mem, 0, 2);
    assert Cell(Data(OpAbs, 2), Place(base, 0), 0, Load(mem, 0, 2)) == 0;
    assert Bytes(0, 2) == [0, 0] by { assert Bytes(0, 1) == [0] + Bytes(0, 0); }
  }

  /** First pass: the branch is skipped, the marker's low half cleared. */
  lemma JumpOverFault(mem: seq<byte>, base: u64, m1: seq<byte>, jump: Fixup, data: Fixup)
    requires mem == [0x00, 0x20, 0x20, 0xd4] && m1 == [0x00, 0x00, 0x20, 0xd4]
    requires jump == Fixup(JUMP26, 0, base) && data == Fixup(ABS16, 0, 0) && jump.Size() == 4 && data.Size() == 2
    ensures Apply(Apply(mem, base, jump), base, data) == m1
  {
    hide EncodeImmediate, CellTop, Load, Store, Apply, Fixup.Patched, Fixup.Size;
    WordOf(mem);
    JumpCell(base, AARCH64_BREAK_FAULT);
    EncodeBreak(Imm26, 0);
    StoreLoaded(mem, 0, 4);
    ApplyIsStore(mem, base, jump);
    ClearLow(mem, base, m1, data);
  }

  lemma JumpWord(w: u32)
    requires w == 0xd4200000
    ensures EncodeImmediate(Imm26, w, 0) == 0xd4000000
  {
    hide EncodeImmediate, Low, Shr, Shl, Pow2;
    EncodeIsSetField(Imm26, w, 0);
    assert Pow2(26) == 0x4000000 && Pow2(0) == 1 by { Pow2Table(); }
    LowOfZero();
    ShlByZero(0);
    ShlIsMul(0x35, 26);
    Parts(w, 26, 0x200000, 0x35);
    assert Low(w, 0) == 0;
  }

  /** Second pass: the branch is patched, which changes a byte the data entry does not cover. */
  lemma JumpAfter(m1: seq<byte>, base: u64, jump: Fixup, data: Fixup)
    requires m1 == [0x00, 0x00, 0x20, 0xd4]
    requires jump == Fixup(JUMP26, 0, base) && data == Fixup(ABS16, 0, 0) && jump.Size() == 4 && data.Size() == 2
    ensures Apply(Apply(m1, base, jump), base, data) != m1
  {
    hide EncodeImmediate, CellTop, Load, Apply, Fixup.Patched, Fixup.Size;
    var w: u32 := 0xd4200000;
    WordOf(m1);
    JumpCell(base, w);
    JumpWord(w);
    var m2 := Apply(m1, base, jump);
    ApplyStep(m1, base, jump);
    WordOf(m2);
    assert m2[2] == 0;
    ApplyStep(m2, base, data);
    assert !data.Covers(2);
  }

  lemma RunTwo(mem: seq<byte>, base: nat, f: Fixup, g: Fixup)
    requires Inside([f, g], |mem|)
    ensures f in [f, g] && g in [f, g]
    ensures Run(mem, base, [f, g]) == Apply(Apply(mem, base, f), base, g)
  {
    assert [f, g][..1] == [f] && [f][..0] == [];
    assert f in [f, g] && g in [f, g];
    assert Run(mem, base, []) == mem;
    assert Run(mem, base, [f]) == Apply(mem, base, f);
  }

  /** At every base, an input on which replay fails: a branch relocation that finds the fault marker skips it, a
      data relocation on the same place then destroys the marker, and the second pass patches the
      branch after all. */
  lemma ReplayNeedsApart(base: u64)
    ensures var fs := [Fixup(JUMP26, 0, base), Fixup(ABS16, 0, 0)];
            var mem: seq<byte> := [0x00, 0x20, 0x20, 0xd4];
            Inside(fs, |mem|) && Run(Run(mem, base, fs), base, fs) != Run(mem, base, fs)
  {
    var jump, data := Fixup(JUMP26, 0, base), Fixup(ABS16, 0, 0);
    var fs := [jump, data];
    var mem: seq<byte> := [0x00, 0x20, 0x20, 0xd4];
    var m1: seq<byte> := [0x00, 0x00, 0x20, 0xd4];
    JumpCell(base, 0);
    RunTwo(mem, base, jump, data);
    RunTwo(m1, base, jump, data);
    JumpOverFault(mem, base, m1, jump, data);
    JumpAfter(m1, base, jump, data);
  }
}
