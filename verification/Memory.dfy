/** A loaded image: bytes in place at a base address, with little-endian cells. */
module Memory {
  import opened Bits

  type byte = x: nat | x < 0x100

  /** The n-byte little-endian cell at off. */
  function Load(mem: seq<byte>, off: nat, n: nat): (v: nat)
    requires off + n <= |mem|
    decreases n
  {
    if n == 0 then 0 else mem[off] + 0x100 * Load(mem, off + 1, n - 1)
  }

  function Bytes(v: nat, n: nat): (s: seq<byte>)
    ensures |s| == n
  {
    if n == 0 then [] else [v % 0x100] + Bytes(v / 0x100, n - 1)
  }

  function Store(mem: seq<byte>, off: nat, n: nat, v: nat): (mem': seq<byte>)
    requires off + n <= |mem|
    ensures |mem'| == |mem|
  {
    mem[..off] + Bytes(v, n) + mem[off + n..]
  }

  /** One past the largest value of an n-byte cell. */
  function CellTop(n: nat): (r: nat)
    ensures r > 0
  {
    if n == 0 then 1 else 0x100 * CellTop(n - 1)
  }

  lemma CellTops()
    ensures CellTop(0) == 1 && CellTop(2) == TWO16 && CellTop(4) == TWO32 && CellTop(8) == TWO64
  {
    assert CellTop(3) == 0x100 * CellTop(2);
    assert CellTop(5) == 0x100 * CellTop(4);
    assert CellTop(7) == 0x100 * CellTop(6);
  }

  lemma {:induction false} LoadBound(mem: seq<byte>, off: nat, n: nat)
    requires off + n <= |mem|
    ensures Load(mem, off, n) < CellTop(n)
    decreases n
  {
    if n == 0 {
    } else {
      LoadBound(mem, off + 1, n - 1);
    }
  }

  /** A cell depends only on its own bytes. */
  lemma {:induction false} LoadSame(a: seq<byte>, b: seq<byte>, off: nat, n: nat)
    requires off + n <= |a| && off + n <= |b|
    requires forall i :: off <= i < off + n ==> a[i] == b[i]
    ensures Load(a, off, n) == Load(b, off, n)
    decreases n
  {
    if n == 0 {
    } else {
      LoadSame(a, b, off + 1, n - 1);
    }
  }

  lemma {:induction false} LoadBytes(mem: seq<byte>, off: nat, n: nat, v: nat)
    requires off + n <= |mem| && v < CellTop(n)
    requires mem[off..off + n] == Bytes(v, n)
    ensures Load(mem, off, n) == v
    decreases n
  {
    if n == 0 {
    } else {
      assert mem[off] == mem[off..off + n][0] == v % 0x100;
      assert mem[off + 1..off + n] == mem[off..off + n][1..] == Bytes(v / 0x100, n - 1);
      LoadBytes(mem, off + 1, n - 1, v / 0x100);
    }
  }

  lemma {:induction false} BytesOfLoad(mem: seq<byte>, off: nat, n: nat)
    requires off + n <= |mem|
    ensures Bytes(Load(mem, off, n), n) == mem[off..off + n]
    decreases n
  {
    if n == 0 {
    } else {
      var rest := Load(mem, off + 1, n - 1);
      BytesOfLoad(mem, off + 1, n - 1);
      assert Load(mem, off, n) % 0x100 == mem[off] && Load(mem, off, n) / 0x100 == rest;
      assert mem[off..off + n] == [mem[off]] + mem[off + 1..off + n];
    }
  }

  /** Reading back a store, and everything a store leaves alone. */
  lemma LoadStore(mem: seq<byte>, off: nat, n: nat, v: nat)
    requires off + n <= |mem| && v < CellTop(n)
    ensures Load(Store(mem, off, n, v), off, n) == v
    ensures forall i :: 0 <= i < |mem| && !(off <= i < off + n) ==> Store(mem, off, n, v)[i] == mem[i]
  {
    var mem' := Store(mem, off, n, v);
    assert mem'[off..off + n] == Bytes(v, n);
    LoadBytes(mem', off, n, v);
  }

  lemma StoreLoaded(mem: seq<byte>, off: nat, n: nat)
    requires off + n <= |mem|
    ensures Store(mem, off, n, Load(mem, off, n)) == mem
  {
    BytesOfLoad(mem, off, n);
  }

  function Overwrite(mem: seq<byte>, at: nat, data: seq<byte>): (r: seq<byte>)
    requires at + |data| <= |mem|
    ensures |r| == |mem|
  {
    mem[..at] + data + mem[at + |data|..]
  }

  class Image {
    const base: nat
    const bytes: array<byte>

    ghost predicate Valid()
      reads this
    {
      base + bytes.Length <= TWO64
    }

    constructor (base: nat, size: nat)
      requires base + size <= TWO64
      ensures Valid() && fresh(this) && fresh(bytes) && this.base == base && bytes.Length == size
      ensures bytes[..] == seq(size, i => 0)
    {
      this.base := base;
      bytes := new byte[size](i => 0);
      new;
      assert bytes[..] == seq(size, i => 0);
    }

    method LoadCell(loc: nat, n: nat) returns (v: nat)
      requires loc + n <= bytes.Length
      ensures v == Load(bytes[..], loc, n) < CellTop(n)
    {
      v := 0;
      var i := n;
      while i > 0
        invariant 0 <= i <= n
        invariant v == Load(bytes[..], loc + i, n - i)
      {
        i := i - 1;
        v := bytes[loc + i] + 0x100 * v;
      }
      LoadBound(bytes[..], loc, n);
    }

    method StoreCell(loc: nat, n: nat, v: nat)
      requires loc + n <= bytes.Length
      modifies bytes
      ensures bytes[..] == Store(old(bytes[..]), loc, n, v)
    {
      ghost var was := bytes[..];
      var i, rest := 0, v;
      while i < n
        invariant 0 <= i <= n
        invariant Bytes(v, n) == bytes[loc..loc + i] + Bytes(rest, n - i)
        invariant bytes[..loc] == was[..loc] && bytes[loc + i..] == was[loc + i..]
      {
        ghost var before := bytes[..];
        bytes[loc + i] := rest % 0x100;
        assert bytes[loc..loc + i] == before[loc..loc + i];
        assert bytes[loc..loc + i + 1] == bytes[loc..loc + i] + [rest % 0x100];
        assert bytes[loc + i + 1..] == before[loc + i + 1..] == was[loc + i + 1..];
        i, rest := i + 1, rest / 0x100;
      }
      assert bytes[..] == bytes[..loc] + bytes[loc..loc + n] + bytes[loc + n..];
    }

    /** memcpy into the image. */
    method CopyIn(at: nat, data: seq<byte>)
      requires at + |data| <= bytes.Length
      modifies bytes
      ensures bytes[..] == Overwrite(old(bytes[..]), at, data)
    {
      ghost var was := bytes[..];
      for i := 0 to |data|
        invariant forall k :: 0 <= k < bytes.Length ==>
                    bytes[k] == if at <= k < at + i then data[k - at] else was[k]
      {
        bytes[at + i] := data[i];
      }
      assert bytes[..] == Overwrite(was, at, data);
    }
  }
}
