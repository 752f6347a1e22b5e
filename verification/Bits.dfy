/** Machine words as bounded naturals, with the bitwise operators defined bit by bit and
    the few laws that turn the loader's masks and shifts into fields of a word. */
module Bits {

  const TWO16 := 0x1_0000
  const TWO32 := 0x1_0000_0000
  const TWO63 := 0x8000_0000_0000_0000
  const TWO64 := 0x1_0000_0000_0000_0000

  function Pow2(n: nat): (r: nat)
    ensures r > 0
  {
    if n == 0 then 1 else 2 * Pow2(n - 1)
  }

  /** x >> n, n halvings that round down: C's arithmetic shift on a signed operand. */
  function Shr(x: int, n: nat): (r: int)
    ensures 0 <= x ==> 0 <= r <= x
    ensures x < 0 ==> x <= r < 0
    decreases n
  {
    if n == 0 then x else Shr(x / 2, n - 1)
  }

  /** The n lowest bits of x. */
  function Low(x: int, n: nat): (r: nat)
    ensures r < Pow2(n)
    decreases n
  {
    if n == 0 then 0 else x % 2 + 2 * Low(x / 2, n - 1)
  }

  function BitAnd(x: nat, y: nat): (r: nat)
    ensures r <= x
  {
    if x == 0 then 0 else (if x % 2 == 1 && y % 2 == 1 then 1 else 0) + 2 * BitAnd(x / 2, y / 2)
  }

  function BitOr(x: nat, y: nat): nat
    decreases x + y
  {
    if x == 0 && y == 0 then 0
    else (if x % 2 + y % 2 > 0 then 1 else 0) + 2 * BitOr(x / 2, y / 2)
  }

  /** Bitwise complement at 32 and at 64 bits. */
  function Not32(x: nat): nat
    requires x < TWO32
  {
    TWO32 - 1 - x
  }

  function Not64(x: nat): nat
    requires x < TWO64
  {
    TWO64 - 1 - x
  }

  /** x << n without a width, and on a 32-bit word, where bits shifted out are lost. */
  function Shl(x: int, n: nat): (r: int)
    ensures 0 <= x ==> x <= r
  {
    if n == 0 then x else 2 * Shl(x, n - 1)
  }

  function Shl32(x: nat, n: nat): nat {
    Shl(x, n) % TWO32
  }

  /** The conversions between uint64_t and int64_t. */
  function ToU64(x: int): nat {
    x % TWO64
  }

  function ToI64(x: nat): int
    requires x < TWO64
  {
    if x < TWO63 then x else x - TWO64
  }

  /** The range of n-bit two's complement numbers. */
  predicate InSigned(x: int, n: nat)
    requires n > 0
  {
    0 <= x + Pow2(n - 1) && x < Pow2(n - 1)
  }

  /** Reads an n-bit field as a two's complement number. */
  function SignExtend(x: nat, n: nat): int
    requires n > 0
  {
    if x < Pow2(n - 1) then x else x - Pow2(n)
  }

  /** The k-bit field of w that starts at bit s, and w with that field replaced by v. */
  function Field(w: nat, s: nat, k: nat): (f: nat)
    ensures f < Pow2(k)
  {
    Low(Shr(w, s), k)
  }

  function SetField(w: nat, s: nat, k: nat, v: nat): nat
    requires v < Pow2(k)
  {
    Low(w, s) + Shl(v, s) + Shl(Shr(w, s + k), s + k)
  }

  // ----- powers of two, shifts and low bits

  lemma MulLe(x: int, y: int, d: nat)
    requires x <= y
    ensures x * d <= y * d
  {
  }

  lemma {:induction false} ShlIsMul(x: int, n: nat)
    ensures Shl(x, n) == x * Pow2(n)
  {
    if n == 0 {
    } else {
      ShlIsMul(x, n - 1);
    }
  }

  lemma ShlByZero(x: int)
    ensures Shl(x, 0) == x
  {
  }

  lemma ShrByZero(x: int)
    ensures Shr(x, 0) == x
  {
  }

  lemma {:induction false} ShlOne(n: nat)
    ensures Shl(1, n) == Pow2(n)
  {
    if n == 0 {
    } else {
      ShlOne(n - 1);
    }
  }

  lemma {:induction false} ShlShl(x: int, m: nat, n: nat)
    ensures Shl(Shl(x, m), n) == Shl(x, m + n)
  {
    if n == 0 {
    } else {
      ShlShl(x, m, n - 1);
    }
  }

  lemma {:induction false} ShlAdd(x: int, y: int, n: nat)
    ensures Shl(x + y, n) == Shl(x, n) + Shl(y, n)
  {
    if n == 0 {
    } else {
      ShlAdd(x, y, n - 1);
    }
  }

  lemma {:induction false} ShlMono(x: int, y: int, n: nat)
    requires x <= y
    ensures Shl(x, n) <= Shl(y, n)
  {
    if n == 0 {
    } else {
      ShlMono(x, y, n - 1);
    }
  }

  lemma ShlPow2(m: nat, n: nat)
    ensures Shl(Pow2(m), n) == Pow2(m + n)
  {
    ShlOne(m);
    ShlShl(1, m, n);
    ShlOne(m + n);
  }

  lemma Pow2Plus(n: nat)
    ensures Pow2(n + 1) == 2 * Pow2(n) && Pow2(n + 2) == 4 * Pow2(n)
    ensures Pow2(n + 3) == 8 * Pow2(n) && Pow2(n + 4) == 16 * Pow2(n)
    ensures Pow2(n + 8) == 256 * Pow2(n)
  {
    assert Pow2(n + 2) == 2 * Pow2(n + 1);
    assert Pow2(n + 4) == 2 * Pow2(n + 3);
    assert Pow2(n + 6) == 2 * Pow2(n + 5);
    assert Pow2(n + 8) == 2 * Pow2(n + 7);
  }

  /** The powers of two at which instructions and relocations cut their values. */
  lemma Pow2Table()
    ensures Pow2(0) == 1 && Pow2(1) == 2 && Pow2(2) == 4 && Pow2(3) == 8 && Pow2(4) == 16
    ensures Pow2(5) == 0x20 && Pow2(6) == 0x40 && Pow2(7) == 0x80 && Pow2(8) == 0x100
    ensures Pow2(9) == 0x200 && Pow2(10) == 0x400 && Pow2(11) == 0x800 && Pow2(12) == 0x1000
    ensures Pow2(13) == 0x2000 && Pow2(14) == 0x4000 && Pow2(15) == 0x8000 && Pow2(16) == TWO16
    ensures Pow2(18) == 0x40000 && Pow2(19) == 0x80000 && Pow2(20) == 0x100000 && Pow2(21) == 0x200000
    ensures Pow2(22) == 0x400000 && Pow2(23) == 0x800000 && Pow2(24) == 0x1000000
    ensures Pow2(25) == 0x2000000 && Pow2(26) == 0x4000000 && Pow2(29) == 0x20000000
    ensures Pow2(30) == 0x40000000 && Pow2(31) == 0x80000000 && Pow2(32) == TWO32
    ensures Pow2(48) == 0x1_0000_0000_0000 && Pow2(63) == TWO63 && Pow2(64) == TWO64
  {
    Pow2Plus(0);
    Pow2Plus(4);
    Pow2Plus(8);
    Pow2Plus(12);
    Pow2Plus(16);
    Pow2Plus(20);
    Pow2Plus(24);
    Pow2Plus(28);
    Pow2Plus(32);
    Pow2Plus(40);
    Pow2Plus(48);
    Pow2Plus(56);
    assert Pow2(60) == 0x1000_0000_0000_0000;
    Pow2Plus(60);
  }

  lemma {:induction false} Pow2Mono(m: nat, n: nat)
    requires m <= n
    ensures Pow2(m) <= Pow2(n)
  {
    if m == n {
    } else {
      Pow2Mono(m, n - 1);
    }
  }

  /** A number is its low bits and the rest, in only one way. */
  lemma {:induction false} Parts(x: int, n: nat, lo: nat, hi: int)
    requires lo < Pow2(n) && x == lo + Shl(hi, n)
    ensures Low(x, n) == lo && Shr(x, n) == hi
    decreases n
  {
    if n == 0 {
    } else {
      Parts(x / 2, n - 1, lo / 2, hi);
    }
  }

  lemma {:induction false} Recompose(x: int, n: nat)
    ensures x == Low(x, n) + Shl(Shr(x, n), n)
    decreases n
  {
    if n == 0 {
    } else {
      Recompose(x / 2, n - 1);
    }
  }

  /** Shifting is dividing, and the low bits are the remainder. */
  lemma ShrIsDiv(x: int, n: nat)
    ensures Shr(x, n) == x / Pow2(n) && Low(x, n) == x % Pow2(n)
  {
    var d := Pow2(n);
    assert x == x % d + x / d * d;
    ShlIsMul(x / d, n);
    Parts(x, n, x % d, x / d);
  }

  lemma {:induction false} ShrShr(x: int, m: nat, n: nat)
    ensures Shr(Shr(x, m), n) == Shr(x, m + n)
    decreases m
  {
    if m == 0 {
    } else {
      ShrShr(x / 2, m - 1, n);
    }
  }

  lemma {:induction false} LowSplit(x: int, m: nat, n: nat)
    ensures Low(x, m + n) == Low(x, m) + Shl(Low(Shr(x, m), n), m)
    decreases m
  {
    if m == 0 {
    } else {
      LowSplit(x / 2, m - 1, n);
    }
  }

  lemma LowLow(x: int, m: nat, n: nat)
    ensures Low(x, m + n) == Low(x, m) + Shl(Low(Shr(x, m), n), m)
    ensures Low(Low(x, m + n), m) == Low(x, m)
    ensures Shr(Low(x, m + n), m) == Low(Shr(x, m), n)
  {
    LowSplit(x, m, n);
    Parts(Low(x, m + n), m, Low(x, m), Low(Shr(x, m), n));
  }

  lemma {:induction false} LowSmall(x: nat, n: nat)
    requires x < Pow2(n)
    ensures Low(x, n) == x && Shr(x, n) == 0
  {
    if n == 0 {
    } else {
      LowSmall(x / 2, n - 1);
    }
  }

  lemma ShrSmall(x: nat, m: nat, n: nat)
    requires x < Pow2(m + n)
    ensures Shr(x, m) < Pow2(n)
  {
    LowSmall(x, m + n);
    LowLow(x, m, n);
  }

  /** A value below 2^k placed above s low bits stays below 2^(s + k). */
  lemma InsertBound(lo: nat, s: nat, k: nat, v: nat)
    requires lo < Pow2(s) && v < Pow2(k)
    ensures 0 <= Shl(v, s) <= lo + Shl(v, s) < Pow2(s + k)
  {
    ShlAdd(v, 1, s);
    ShlOne(s);
    ShlMono(v + 1, Pow2(k), s);
    ShlPow2(k, s);
  }

  lemma LowOfU64(x: int, n: nat)
    requires n <= 64
    ensures ToU64(x) == Low(x, 64) && Low(ToU64(x), n) == Low(x, n)
  {
    hide Low, Shr, Shl, Pow2;
    assert Pow2(64) == TWO64 by { Pow2Table(); }
    ShrIsDiv(x, 64);
    var m := 64 - n;
    LowLow(x, n, m);
  }

  /** Shifting out all but the sign leaves 0 or -1 exactly for the n-bit numbers. */
  lemma SignShift(x: int, n: nat)
    requires n > 0
    ensures -1 <= Shr(x, n - 1) <= 0 <==> InSigned(x, n)
  {
    hide Low, Shr, Shl;
    var k, t := n - 1, Shr(x, n - 1);
    Recompose(x, k);
    ShlIsMul(1, k);
    ShlIsMul(-1, k);
    ShlIsMul(-2, k);
    ShlIsMul(0, k);
    if t >= 1 {
      ShlMono(1, t, k);
    } else if t <= -2 {
      ShlMono(t, -2, k);
    }
  }

  /** Sign extension undoes truncation exactly on the n-bit numbers. */
  lemma SignExtendExact(x: int, n: nat)
    requires n > 0
    ensures SignExtend(Low(x, n), n) == x <==> InSigned(x, n)
    ensures InSigned(SignExtend(Low(x, n), n), n)
  {
    hide Low, Shr, Shl;
    Recompose(x, n);
    assert Pow2(n) == 2 * Pow2(n - 1);
    if InSigned(x, n) {
      ShlIsMul(0, n);
      ShlIsMul(-1, n);
      var t := Shr(x, n);
      if t >= 1 {
        ShlMono(1, t, n);
        ShlIsMul(1, n);
      } else if t <= -2 {
        ShlMono(t, -2, n);
        ShlIsMul(-2, n);
      }
    }
  }

  // ----- the bitwise operators act field by field

  lemma LowStep(x: int, n: nat)
    requires n > 0
    ensures Low(x, n) % 2 == x % 2 && Low(x, n) / 2 == Low(x / 2, n - 1)
  {
  }

  lemma AndStep(x: nat, y: nat)
    ensures BitAnd(x, y) == (if x % 2 == 1 && y % 2 == 1 then 1 else 0) + 2 * BitAnd(x / 2, y / 2)
  {
  }

  lemma {:induction false} AndSplit(x: nat, y: nat, n: nat)
    ensures BitAnd(x, y) == BitAnd(Low(x, n), Low(y, n)) + Shl(BitAnd(Shr(x, n), Shr(y, n)), n)
  {
    if n == 0 {
    } else {
      AndSplit(x / 2, y / 2, n - 1);
      LowStep(x, n);
      LowStep(y, n);
      AndStep(Low(x, n), Low(y, n));
      AndStep(x, y);
    }
  }

  lemma OrStep(x: nat, y: nat)
    ensures BitOr(x, y) == (if x % 2 + y % 2 > 0 then 1 else 0) + 2 * BitOr(x / 2, y / 2)
  {
  }

  lemma {:induction false} OrSplit(x: nat, y: nat, n: nat)
    ensures BitOr(x, y) == BitOr(Low(x, n), Low(y, n)) + Shl(BitOr(Shr(x, n), Shr(y, n)), n)
  {
    if n == 0 {
    } else {
      OrSplit(x / 2, y / 2, n - 1);
      LowStep(x, n);
      LowStep(y, n);
      OrStep(Low(x, n), Low(y, n));
      OrStep(x, y);
    }
  }

  lemma {:induction false} OrZero(x: nat)
    ensures BitOr(x, 0) == x && BitOr(0, x) == x
  {
    if x == 0 {
    } else {
      OrZero(x / 2);
    }
  }

  lemma {:induction false} AndZero(x: nat)
    ensures BitAnd(x, 0) == 0
  {
    if x == 0 {
    } else {
      AndZero(x / 2);
    }
  }

  lemma {:induction false} AndLow(x: nat, n: nat)
    ensures BitAnd(x, Pow2(n) - 1) == Low(x, n)
  {
    if n == 0 {
      AndZero(x);
    } else {
      AndLow(x / 2, n - 1);
      AndStep(x, Pow2(n) - 1);
    }
  }

  lemma ClearMaskParts(s: nat, k: nat, r: nat)
    ensures Pow2(s + k + r) - 1 - Shl(Pow2(k) - 1, s) == Pow2(s) - 1 + Shl(Pow2(r) - 1, s + k)
    ensures Pow2(s) <= Pow2(s + k)
  {
    ShlAdd(Pow2(k) - 1, 1, s);
    ShlOne(s);
    ShlPow2(k, s);
    ShlAdd(Pow2(r) - 1, 1, s + k);
    ShlOne(s + k);
    ShlPow2(r, s + k);
    Pow2Mono(s, s + k);
  }

  lemma {:induction false} ShlZero(n: nat)
    ensures Shl(0, n) == 0
  {
    if n == 0 {
    } else {
      ShlZero(n - 1);
    }
  }

  /** A mask that clears the k bits from s on and keeps the rest of a t-bit word. */
  lemma AndClear(w: nat, s: nat, k: nat, t: nat)
    requires s + k <= t && w < Pow2(t)
    ensures 0 <= Shl(Pow2(k) - 1, s) < Pow2(t)
    ensures BitAnd(w, Pow2(t) - 1 - Shl(Pow2(k) - 1, s)) == SetField(w, s, k, 0)
  {
    hide BitAnd, Shl, Low, Shr, Pow2;
    var h, r := s + k, t - s - k;
    assert t == h + r;
    InsertBound(0, s, k, Pow2(k) - 1);
    Pow2Mono(h, t);
    var m := Pow2(t) - 1 - Shl(Pow2(k) - 1, s);
    ClearMaskParts(s, k, r);
    Parts(m, h, Pow2(s) - 1, Pow2(r) - 1);
    AndSplit(w, m, h);
    assert BitAnd(Low(w, h), Pow2(s) - 1) == Low(w, s) by {
      AndLow(Low(w, h), s);
      LowLow(w, s, k);
    }
    assert BitAnd(Shr(w, h), Pow2(r) - 1) == Shr(w, h) by {
      ShrSmall(w, h, r);
      AndLow(Shr(w, h), r);
      LowSmall(Shr(w, h), r);
    }
    ShlZero(s);
  }

  /** Or-ing a value into a cleared field puts it there. */
  lemma OrInto(w: nat, s: nat, k: nat, v: nat)
    requires v < Pow2(k)
    ensures BitOr(SetField(w, s, k, 0), Shl(v, s)) == SetField(w, s, k, v)
  {
    var c, u, lo, hi := SetField(w, s, k, 0), Shl(v, s), Low(w, s), Shr(w, s + k);
    ShlZero(s);
    ShlZero(s + k);
    InsertBound(lo, s, k, v);
    Pow2Mono(s, s + k);
    Parts(c, s + k, lo, hi);
    Parts(u, s + k, u, 0);
    OrSplit(c, u, s + k);
    Parts(u, s, 0, v);
    Parts(lo, s, lo, 0);
    OrSplit(lo, u, s);
    OrZero(lo);
    OrZero(hi);
    OrZero(v);
  }

  lemma AndParts(x: nat, y: nat, n: nat)
    ensures Low(BitAnd(x, y), n) == BitAnd(Low(x, n), Low(y, n))
    ensures Shr(BitAnd(x, y), n) == BitAnd(Shr(x, n), Shr(y, n))
  {
    hide BitAnd, Low, Shr, Shl, Pow2;
    AndSplit(x, y, n);
    Parts(BitAnd(x, y), n, BitAnd(Low(x, n), Low(y, n)), BitAnd(Shr(x, n), Shr(y, n)));
  }

  lemma AndShl(x: nat, y: nat, n: nat)
    ensures BitAnd(Shl(x, n), Shl(y, n)) == Shl(BitAnd(x, y), n)
  {
    Parts(Shl(x, n), n, 0, x);
    Parts(Shl(y, n), n, 0, y);
    AndSplit(Shl(x, n), Shl(y, n), n);
    AndZero(0);
  }

  /** The three parts of a word whose field was written. */
  lemma FieldOfSet(w: nat, s: nat, k: nat, v: nat)
    requires v < Pow2(k)
    ensures Field(SetField(w, s, k, v), s, k) == v
    ensures Low(SetField(w, s, k, v), s) == Low(w, s)
    ensures Shr(SetField(w, s, k, v), s + k) == Shr(w, s + k)
  {
    hide Low, Shr, Shl, Pow2;
    var lo, x := Low(w, s), SetField(w, s, k, v);
    InsertBound(lo, s, k, v);
    Parts(x, s + k, lo + Shl(v, s), Shr(w, s + k));
    LowLow(x, s, k);
    Parts(lo + Shl(v, s), s, lo, v);
  }

  lemma SetFieldBound(w: nat, s: nat, k: nat, v: nat, t: nat)
    requires v < Pow2(k) && s + k <= t && w < Pow2(t)
    ensures SetField(w, s, k, v) < Pow2(t)
  {
    var h, r := s + k, t - s - k;
    assert t == h + r;
    hide Low, Shr, Shl, Pow2;
    InsertBound(Low(w, s), s, k, v);
    ShrSmall(w, h, r);
    InsertBound(Low(w, s) + Shl(v, s), h, r, Shr(w, h));
  }

  /** A field of a constant, from its decomposition around that field. */
  lemma ConstField(m: nat, s: nat, k: nat, lo: nat, v: nat, hi: nat)
    requires lo < Pow2(s) && v < Pow2(k) && m == lo + v * Pow2(s) + hi * Pow2(s + k)
    ensures Field(m, s, k) == v
  {
    ShlIsMul(v, s);
    ShlIsMul(hi, s + k);
    ShlAdd(v, Shl(hi, k), s);
    ShlShl(hi, k, s);
    Parts(m, s, lo, v + Shl(hi, k));
    Parts(v + Shl(hi, k), k, v, hi);
  }

  /** A mask that keeps all of a field fixes that field. */
  lemma MaskedField(w: nat, mask: nat, val: nat, s: nat, k: nat)
    requires BitAnd(w, mask) == val && Field(mask, s, k) == Pow2(k) - 1
    ensures Field(w, s, k) == Field(val, s, k)
  {
    hide BitAnd, Shr, Low, Pow2;
    AndParts(w, mask, s);
    AndParts(Shr(w, s), Shr(mask, s), k);
    AndLow(Field(w, s, k), k);
    LowSmall(Field(w, s, k), k);
  }

  lemma FieldOfLow(w: nat, s: nat, s0: nat, k0: nat)
    requires s0 + k0 <= s
    ensures Field(w, s0, k0) == Shr(Low(Low(w, s), s0 + k0), s0)
  {
    hide Low, Shr, Shl;
    var h, j := s0 + k0, s - s0 - k0;
    assert s == h + j;
    LowLow(w, h, j);
    LowLow(w, s0, k0);
  }

  /** A field below or above the written one is untouched. */
  lemma FieldBelow(w: nat, w': nat, s: nat, s0: nat, k0: nat)
    requires s0 + k0 <= s && Low(w, s) == Low(w', s)
    ensures Field(w, s0, k0) == Field(w', s0, k0)
  {
    FieldOfLow(w, s, s0, k0);
    FieldOfLow(w', s, s0, k0);
  }

  lemma FieldAbove(w: nat, w': nat, h: nat, s0: nat, k0: nat)
    requires h <= s0 && Shr(w, h) == Shr(w', h)
    ensures Field(w, s0, k0) == Field(w', s0, k0)
  {
    var j := s0 - h;
    assert s0 == h + j;
    ShrShr(w, h, j);
    ShrShr(w', h, j);
    assert Shr(w, s0) == Shr(w', s0);
  }

  /** A mask that is zero on the written field cannot see the write. */
  lemma MaskBlind(w: nat, w': nat, mask: nat, s: nat, k: nat)
    requires Field(mask, s, k) == 0
    requires Low(w, s) == Low(w', s) && Shr(w, s + k) == Shr(w', s + k)
    ensures BitAnd(w, mask) == BitAnd(w', mask)
  {
    hide BitAnd, Low, Shr, Shl;
    AndSplit(w, mask, s);
    AndSplit(w', mask, s);
    AndSplit(Shr(w, s), Shr(mask, s), k);
    AndSplit(Shr(w', s), Shr(mask, s), k);
    ShrShr(w, s, k);
    ShrShr(w', s, k);
    AndZero(Field(w, s, k));
    AndZero(Field(w', s, k));
  }
}
