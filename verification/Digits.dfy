/** Printing integers: padding, the backwards digit loop in its 64-byte buffer, and reading the
    text back. */
module Digits {
  import opened Bits

  const PRINT_BUF_LEN := 64

  /** Where characters go: a null output pointer is modelled by a null Sink. */
  class Sink {
    var text: string
    var terminated: bool

    constructor ()
      ensures text == "" && !terminated
    {
      text, terminated := "", false;
    }
  }

  datatype Flags = Flags(zero: bool, right: bool)

  // ----- what must be printed

  function Repeat(c: char, n: nat): (s: string)
    ensures |s| == n
  {
    seq(n, _ => c)
  }

  /** The missing columns, on the side the flags choose; zeros if asked for. */
  function Fill(s: string, width: int, flags: Flags): string {
    Repeat(if flags.zero then '0' else ' ', if width > |s| then width - |s| else 0)
  }

  function Padded(s: string, width: int, flags: Flags): string {
    if flags.right then s + Fill(s, width, flags) else Fill(s, width, flags) + s
  }

  function DigitChar(d: nat, upper: bool): char
    requires d < 16
  {
    if d < 10 then '0' + d as char else (if upper then 'A' else 'a') + (d - 10) as char
  }

  /** The digits of u, most significant first; none for zero. */
  function DigitsOf(u: nat, base: nat, upper: bool): string
    requires 2 <= base <= 16
  {
    if u == 0 then "" else DigitsOf(u / base, base, upper) + [DigitChar(u % base, upper)]
  }

  predicate Negative(i: int, base: nat, sign: bool) {
    sign && base == 10 && i < 0
  }

  function Magnitude(i: int, base: nat, sign: bool): nat {
    if Negative(i, base, sign) then -i else ToU64(i)
  }

  /** Zero is one digit; a minus sign goes before zeros but behind blanks. */
  function Rendered(i: int, base: nat, sign: bool, width: int, flags: Flags, upper: bool): string
    requires 2 <= base <= 16
  {
    if i == 0 then Padded("0", width, flags)
    else
      var ds := DigitsOf(Magnitude(i, base, sign), base, upper);
      if !Negative(i, base, sign) then Padded(ds, width, flags)
      else if width != 0 && flags.zero then "-" + Padded(ds, width - 1, flags)
      else Padded("-" + ds, width, flags)
  }

  // ----- the digit buffer

  /** The digits, a sign if it is stored with them, and the final NUL fit the buffer. */
  predicate FitsBuffer(i: int, base: nat, sign: bool)
    requires 2 <= base <= 16
  {
    |DigitsOf(Magnitude(i, base, sign), base, false)| + (if Negative(i, base, sign) then 1 else 0) < PRINT_BUF_LEN
  }

  function Power(base: nat, n: nat): nat {
    if n == 0 then 1 else base * Power(base, n - 1)
  }

  lemma MulPositive(a: nat, b: nat)
    requires a > 0 && b > 0
    ensures a * b > 0
  {
  }

  lemma {:induction false} PowerPositive(base: nat, n: nat)
    requires base > 0
    ensures Power(base, n) > 0
  {
    if n == 0 {
    } else {
      PowerPositive(base, n - 1);
      MulPositive(base, Power(base, n - 1));
    }
  }

  lemma DivBelow(u: nat, base: nat, p: nat)
    requires 2 <= base <= 16
    ensures u / base < p <==> u < base * p
  {
    var q, r := u / base, u % base;
    assert u == q * base + r;
    if q < p {
      assert (q + 1) * base <= p * base;
    } else {
      assert p * base <= q * base;
    }
  }

  /** Upper-case letters are printed exactly when asked for. */
  lemma {:induction false} DigitsSpelled(u: nat, base: nat, upper: bool)
    requires 2 <= base <= 16
    ensures forall c :: c in DigitsOf(u, base, upper) ==>
              '0' <= c <= '9' || (if upper then 'A' <= c <= 'F' else 'a' <= c <= 'f')
  {
    if u == 0 {
    } else {
      DigitsSpelled(u / base, base, upper);
    }
  }

  /** A number below base^n has at most n digits, and one from base^n on has more. */
  lemma {:induction false} DigitCount(u: nat, base: nat, upper: bool, n: nat)
    requires 2 <= base <= 16
    ensures |DigitsOf(u, base, upper)| <= n <==> u < Power(base, n)
  {
    if u > 0 && n > 0 {
      DigitCount(u / base, base, upper, n - 1);
      DivBelow(u, base, Power(base, n - 1));
    } else if n > 0 {
      PowerPositive(base, n);
    }
  }

  lemma {:induction false} CountIgnoresCase(u: nat, base: nat)
    requires 2 <= base <= 16
    ensures |DigitsOf(u, base, true)| == |DigitsOf(u, base, false)|
  {
    if u == 0 {
    } else {
      CountIgnoresCase(u / base, base);
    }
  }

  lemma MulBoth(a: nat, b: nat, c: nat, d: nat)
    requires a <= c && b <= d
    ensures a * b <= c * d
  {
    assert a * b <= a * d;
    assert a * d <= c * d;
  }

  lemma {:induction false} PowerAtLeast(base: nat, k: nat, n: nat)
    requires Pow2(k) <= base
    ensures Pow2(k * n) <= Power(base, n)
  {
    if n == 0 {
    } else {
      PowerAtLeast(base, k, n - 1);
      var p := Pow2(k * (n - 1));
      assert k * n == k * (n - 1) + k;
      ShlPow2(k, k * (n - 1));
      ShlIsMul(Pow2(k), k * (n - 1));
      MulBoth(Pow2(k), p, base, Power(base, n - 1));
    }
  }

  lemma {:induction false} PowerOfTwo(n: nat)
    ensures Power(2, n) == Pow2(n)
  {
    if n == 0 {
    } else {
      PowerOfTwo(n - 1);
    }
  }

  /** The buffer is large enough for every number in base 10 and 16, and in base 2 exactly for
      the numbers that are not negative. */
  lemma BufferSuffices(i: int, base: nat, sign: bool)
    requires -TWO63 <= i < TWO63 && base in {2, 10, 16}
    ensures FitsBuffer(i, base, sign) <==> (base == 2 ==> i >= 0)
  {
    hide DigitsOf, Power, Pow2;
    assert Pow2(63) == TWO63 && Pow2(3) == 8 && Pow2(4) == 16 && Pow2(64) == TWO64 by { Pow2Table(); }
    var u := Magnitude(i, base, sign);
    if base == 2 {
      DigitCount(u, 2, false, 63);
      PowerOfTwo(63);
    } else if base == 10 {
      DigitCount(u, 10, false, 22);
      PowerAtLeast(10, 3, 22);
      Pow2Mono(64, 66);
    } else {
      DigitCount(u, 16, false, 16);
      PowerAtLeast(16, 4, 16);
    }
  }

  /** An input on which it is too small: every negative number printed in binary, as -1. */
  lemma BinaryOverruns()
    ensures |DigitsOf(Magnitude(-1, 2, true), 2, false)| >= PRINT_BUF_LEN
  {
    hide DigitsOf;
    BufferSuffices(-1, 2, true);
  }

  // ----- the code

  method SimpleOutputChar(out: Sink?, c: char)
    modifies if out == null then {} else {out}
    ensures out != null ==> out.text == old(out.text) + [c] && out.terminated == old(out.terminated)
  {
    if out != null {
      out.text := out.text + [c];
    }
  }

  /** One of the two padding loops of prints, which leaves width at most 0. */
  method Pad(out: Sink?, padchar: char, width0: int) returns (pc: nat)
    modifies if out == null then {} else {out}
    ensures pc == if width0 > 0 then width0 else 0
    ensures out != null ==>
              out.text == old(out.text) + Repeat(padchar, pc) && out.terminated == old(out.terminated)
  {
    var width := width0;
    pc := 0;
    while width > 0
      invariant width0 > 0 ==> width >= 0 && pc == width0 - width
      invariant width0 <= 0 ==> width == width0 && pc == 0
      invariant out != null ==>
                  out.text == old(out.text) + Repeat(padchar, pc) && out.terminated == old(out.terminated)
    {
      SimpleOutputChar(out, padchar);
      assert Repeat(padchar, pc + 1) == Repeat(padchar, pc) + [padchar];
      pc, width := pc + 1, width - 1;
    }
  }

  /** The middle loop of prints: the string itself, up to its NUL. */
  method Send(out: Sink?, s: string) returns (pc: nat)
    requires '\0' !in s
    modifies if out == null then {} else {out}
    ensures pc == |s|
    ensures out != null ==> out.text == old(out.text) + s && out.terminated == old(out.terminated)
  {
    pc := 0;
    while pc < |s|
      invariant 0 <= pc <= |s|
      invariant out != null ==> out.text == old(out.text) + s[..pc] && out.terminated == old(out.terminated)
    {
      SimpleOutputChar(out, s[pc]);
      pc := pc + 1;
    }
    assert s[..pc] == s;
  }

  /** The width left over for filling, and the character to fill with. */
  method Columns(s: string, width0: int, flags: Flags) returns (width: nat, padchar: char)
    requires '\0' !in s
    ensures Fill(s, width0, flags) == Repeat(padchar, width)
  {
    width, padchar := 0, ' ';
    if width0 > 0 {
      var len := 0;
      while len < |s|
        invariant 0 <= len <= |s|
      {
        len := len + 1;
      }
      if len < width0 {
        width := width0 - len;
      }
      if flags.zero {
        padchar := '0';
      }
    }
  }

  lemma JoinThree(a: string, b: string, c: string)
    ensures a + b + c + "" == a + (b + c) && a + c + b == a + (c + b)
  {
  }

  lemma EmptyRepeat(c: char)
    ensures Repeat(c, 0) == ""
  {
  }

  /** s is the content of a C string, so it holds no NUL. */
  method Prints(out: Sink?, s: string, width0: int, flags: Flags) returns (pc: nat)
    requires '\0' !in s
    modifies if out == null then {} else {out}
    ensures pc == |Padded(s, width0, flags)|
    ensures out != null ==>
              out.text == old(out.text) + Padded(s, width0, flags) && out.terminated == old(out.terminated)
  {
    hide Fill, Repeat;
    var width, padchar := Columns(s, width0, flags);
    EmptyRepeat(padchar);
    ghost var fill := Repeat(padchar, width);
    var left := 0;
    if !flags.right {
      left := Pad(out, padchar, width);
      width := 0;
    }
    var middle := Send(out, s);
    var right := Pad(out, padchar, width);
    pc := left + middle + right;
    if out != null {
      JoinThree(old(out.text), fill, s);
    }
  }

  lemma {:induction false} DigitsHoldNoNul(u: nat, base: nat, upper: bool)
    requires 2 <= base <= 16
    ensures '\0' !in DigitsOf(u, base, upper)
  {
    if u == 0 {
    } else {
      DigitsHoldNoNul(u / base, base, upper);
    }
  }

  lemma DigitsStep(u: nat, base: nat, upper: bool)
    requires 2 <= base <= 16 && u > 0
    ensures DigitsOf(u, base, upper) == DigitsOf(u / base, base, upper) + [DigitChar(u % base, upper)]
  {
  }

  lemma DivShrinks(u: nat, base: nat)
    requires 2 <= base && u > 0
    ensures 0 <= u / base < u
  {
    var q := u / base;
    assert u == q * base + u % base;
    assert q * 2 <= q * base;
  }

  lemma NoDigits(base: nat, upper: bool)
    requires 2 <= base <= 16
    ensures DigitsOf(0, base, upper) == ""
  {
  }

  /** Fills print_buf backwards: the digits end up between s and the final NUL. */
  method FillBackwards(buf: array<char>, u0: nat, base: nat, upper: bool) returns (s: nat)
    requires buf.Length == PRINT_BUF_LEN && 2 <= base <= 16
    requires |DigitsOf(u0, base, upper)| < PRINT_BUF_LEN
    modifies buf
    ensures s + |DigitsOf(u0, base, upper)| == PRINT_BUF_LEN - 1
    ensures buf[s..PRINT_BUF_LEN - 1] == DigitsOf(u0, base, upper) && buf[PRINT_BUF_LEN - 1] == '\0'
  {
    hide DigitsOf, DigitChar;
    var u: nat := u0;
    s := PRINT_BUF_LEN - 1;
    buf[s] := '\0';
    while u > 0
      invariant s <= PRINT_BUF_LEN - 1 && |DigitsOf(u, base, upper)| <= s
      invariant buf[PRINT_BUF_LEN - 1] == '\0'
      invariant DigitsOf(u, base, upper) + buf[s..PRINT_BUF_LEN - 1] == DigitsOf(u0, base, upper)
    {
      DigitsStep(u, base, upper);
      DivShrinks(u, base);
      var t := u % base;
      ghost var tail := buf[s..PRINT_BUF_LEN - 1];
      s := s - 1;
      buf[s] := DigitChar(t, upper);
      assert buf[s..PRINT_BUF_LEN - 1] == [DigitChar(t, upper)] + tail;
      u := u / base;
    }
    NoDigits(base, upper);
  }

  method SimpleOutputI(out: Sink?, i: int, base: nat, sign: bool, width0: int, flags: Flags, upper: bool)
    returns (pc: nat)
    requires -TWO63 <= i < TWO63 && base in {2, 10, 16} && FitsBuffer(i, base, sign)
    requires sign && base == 10 ==> i > -TWO63
    modifies if out == null then {} else {out}
    ensures pc == |Rendered(i, base, sign, width0, flags, upper)|
    ensures out != null ==>
              out.text == old(out.text) + Rendered(i, base, sign, width0, flags, upper)
              && out.terminated == old(out.terminated)
  {
    hide DigitsOf, Padded, DigitChar;
    if i == 0 {
      pc := Prints(out, "0", width0, flags);
      return;
    }
    var neg, u, width := false, ToU64(i), width0;
    if sign && base == 10 && i < 0 {
      neg, u := true, -i;
    }
    CountIgnoresCase(u, base);
    var buf := new char[PRINT_BUF_LEN];
    var s := FillBackwards(buf, u, base, upper);
    ghost var ds := DigitsOf(u, base, upper);
    DigitsHoldNoNul(u, base, upper);
    var sent := 0;
    if neg {
      if width != 0 && flags.zero {
        SimpleOutputChar(out, '-');
        sent, width := 1, width - 1;
      } else {
        s := s - 1;
        buf[s] := '-';
        assert buf[s..PRINT_BUF_LEN - 1] == "-" + ds;
      }
    }
    var rest := Prints(out, buf[s..PRINT_BUF_LEN - 1], width, flags);
    pc := sent + rest;
  }
}
