/** Reading printed integers back: the round trip of simple_outputi. */
module Reading {
  import opened Bits
  import opened Digits

  // ----- an independent reader

  function DigitValue(c: char): nat {
    if '0' <= c <= '9' then (c - '0') as nat
    else if 'a' <= c <= 'f' then (c - 'a') as nat + 10
    else if 'A' <= c <= 'F' then (c - 'A') as nat + 10
    else 16
  }

  /** acc, then the digits of s up to the first character that is not one. */
  function ReadDigits(s: string, base: nat, acc: nat): nat {
    if s == "" || DigitValue(s[0]) >= base then acc
    else ReadDigits(s[1..], base, acc * base + DigitValue(s[0]))
  }

  function SkipBlanks(s: string): string {
    if s != "" && s[0] == ' ' then SkipBlanks(s[1..]) else s
  }

  /** Blanks, an optional minus sign, digits; whatever follows is ignored. */
  function ReadInt(s: string, base: nat): int {
    var t := SkipBlanks(s);
    if t != "" && t[0] == '-' then 0 - ReadDigits(t[1..], base, 0) else ReadDigits(t, base, 0)
  }

  // ----- the parts of a printed integer

  function Sign(i: int, base: nat, sign: bool): string {
    if Negative(i, base, sign) then "-" else ""
  }

  function Body(i: int, base: nat, sign: bool, upper: bool): string
    requires 2 <= base <= 16
  {
    if i == 0 then "0" else DigitsOf(Magnitude(i, base, sign), base, upper)
  }

  /** The columns left to fill. */
  function Missing(i: int, base: nat, sign: bool, width: int, upper: bool): nat
    requires 2 <= base <= 16
  {
    var n := |Sign(i, base, sign)| + |Body(i, base, sign, upper)|;
    if width > n then width - n else 0
  }

  lemma PaddedIs(s: string, width: int, flags: Flags, n: nat)
    requires n == if width > |s| then width - |s| else 0
    ensures var f := Repeat(if flags.zero then '0' else ' ', n);
            Padded(s, width, flags) == if flags.right then s + f else f + s
  {
  }

  lemma Unsigned(b: string)
    ensures "" + b == b && b + "" == b && forall f: string {:trigger "" + f} :: "" + f == f
  {
  }

  lemma Dashed(b: string, f: string)
    ensures "-" + (b + f) == "-" + b + f && "-" + (f + b) == "-" + f + b && f + ("-" + b) == f + "-" + b
  {
  }

  /** Where the sign, the digits and the filling go, for every width and every pair of flags:
      trailing filling, zeros behind the sign, or leading blanks. */
  lemma Shape(i: int, base: nat, sign: bool, width: int, flags: Flags, upper: bool)
    requires 2 <= base <= 16
    ensures var s := Sign(i, base, sign); var b := Body(i, base, sign, upper);
            var n := Missing(i, base, sign, width, upper);
            Rendered(i, base, sign, width, flags, upper)
            == if flags.right then s + b + Repeat(if flags.zero then '0' else ' ', n)
               else if flags.zero then s + Repeat('0', n) + b
               else Repeat(' ', n) + s + b
  {
    hide DigitsOf, Magnitude, Repeat, Padded;
    var n, b := Missing(i, base, sign, width, upper), Body(i, base, sign, upper);
    Unsigned(b);
    if Negative(i, base, sign) {
      if width != 0 && flags.zero {
        PaddedIs(b, width - 1, flags, n);
      } else {
        PaddedIs("-" + b, width, flags, n);
      }
      var f := Repeat(if flags.zero then '0' else ' ', n);
      Dashed(b, f);
      if width == 0 {
        EmptyRepeat('0');
        assert "-" + b + "" == "-" + b && "-" + "" + b == "-" + b;
      }
    } else {
      PaddedIs(b, width, flags, n);
      Unsigned(Repeat(' ', n));
    }
  }

  /** As wide as asked, or as the sign and the digits need. */
  lemma RenderedLength(i: int, base: nat, sign: bool, width: int, flags: Flags, upper: bool)
    requires 2 <= base <= 16
    ensures var n := |Sign(i, base, sign)| + |Body(i, base, sign, upper)|;
            |Rendered(i, base, sign, width, flags, upper)| == if width > n then width else n
  {
    hide DigitsOf, Magnitude, Rendered;
    Shape(i, base, sign, width, flags, upper);
  }

  /** Nothing but digits of the case asked for, a sign and blanks is printed. */
  lemma RenderedSpelled(i: int, base: nat, sign: bool, width: int, flags: Flags, upper: bool)
    requires 2 <= base <= 16
    ensures forall c :: c in Rendered(i, base, sign, width, flags, upper) ==>
              c == ' ' || c == '-' || '0' <= c <= '9' || (if upper then 'A' <= c <= 'F' else 'a' <= c <= 'f')
  {
    hide DigitsOf, Magnitude, Rendered;
    Shape(i, base, sign, width, flags, upper);
    DigitsSpelled(Magnitude(i, base, sign), base, upper);
  }

  // ----- reading the parts

  lemma ReadOne(c: char, s: string, base: nat, acc: nat)
    requires DigitValue(c) < base
    ensures ReadDigits([c] + s, base, acc) == ReadDigits(s, base, acc * base + DigitValue(c))
  {
    hide DigitValue;
    assert ([c] + s)[1..] == s;
  }

  lemma DigitCharValue(d: nat, upper: bool)
    requires d < 16
    ensures DigitValue(DigitChar(d, upper)) == d && DigitChar(d, upper) != ' ' && DigitChar(d, upper) != '-'
  {
  }

  lemma {:induction false} ReadsDigits(u: nat, base: nat, upper: bool, tail: string)
    requires 2 <= base <= 16
    ensures ReadDigits(DigitsOf(u, base, upper) + tail, base, 0) == ReadDigits(tail, base, u)
  {
    hide DigitsOf, ReadDigits, DigitValue, DigitChar;
    if u == 0 {
      NoDigits(base, upper);
      assert "" + tail == tail;
    } else {
      DivShrinks(u, base);
      DigitsStep(u, base, upper);
      var q, c := u / base, DigitChar(u % base, upper);
      DigitCharValue(u % base, upper);
      assert (DigitsOf(q, base, upper) + [c]) + tail == DigitsOf(q, base, upper) + ([c] + tail);
      ReadsDigits(q, base, upper, [c] + tail);
      ReadOne(c, tail, base, q);
    }
  }

  lemma RepeatStep(c: char, n: nat)
    requires n > 0
    ensures Repeat(c, n) == [c] + Repeat(c, n - 1)
  {
  }

  /** Each zero read shifts the value up by one digit. */
  lemma {:induction false} ReadsZeros(n: nat, base: nat, acc: nat, tail: string)
    requires 2 <= base
    ensures ReadDigits(Repeat('0', n) + tail, base, acc) == ReadDigits(tail, base, acc * Power(base, n))
  {
    hide ReadDigits, Repeat;
    if n == 0 {
      EmptyRepeat('0');
      assert "" + tail == tail;
    } else {
      RepeatStep('0', n);
      assert (['0'] + Repeat('0', n - 1)) + tail == ['0'] + (Repeat('0', n - 1) + tail);
      ReadOne('0', Repeat('0', n - 1) + tail, base, acc);
      ReadsZeros(n - 1, base, acc * base, tail);
      assert (acc * base) * Power(base, n - 1) == acc * (base * Power(base, n - 1));
    }
  }

  lemma ReadsNothing(n: nat, base: nat, acc: nat)
    requires base <= 16
    ensures ReadDigits(Repeat(' ', n), base, acc) == acc
  {
  }

  lemma {:induction false} SkipsBlanks(n: nat, s: string)
    requires s != "" && s[0] != ' '
    ensures SkipBlanks(Repeat(' ', n) + s) == s
  {
    if n == 0 {
      assert Repeat(' ', n) + s == s;
    } else {
      assert (Repeat(' ', n) + s)[1..] == Repeat(' ', n - 1) + s;
      SkipsBlanks(n - 1, s);
    }
  }

  // ----- the digits of a printed integer

  lemma ReadsBody(i: int, base: nat, sign: bool, upper: bool, tail: string)
    requires 2 <= base <= 16
    ensures ReadDigits(Body(i, base, sign, upper) + tail, base, 0)
            == ReadDigits(tail, base, if i == 0 then 0 else Magnitude(i, base, sign))
  {
    hide DigitsOf, ReadDigits;
    if i == 0 {
      ReadOne('0', tail, base, 0);
    } else {
      ReadsDigits(Magnitude(i, base, sign), base, upper, tail);
    }
  }

  lemma {:induction false} DigitsStart(u: nat, base: nat, upper: bool)
    requires 2 <= base <= 16 && u > 0
    ensures var d := DigitsOf(u, base, upper); d != "" && d[0] != ' ' && d[0] != '-'
  {
    hide DigitsOf, DigitChar;
    DivShrinks(u, base);
    DigitsStep(u, base, upper);
    DigitCharValue(u % base, upper);
    if u / base == 0 {
      NoDigits(base, upper);
    } else {
      DigitsStart(u / base, base, upper);
    }
  }

  lemma BodyStart(i: int, base: nat, sign: bool, upper: bool)
    requires 2 <= base <= 16 && -TWO63 <= i < TWO63
    ensures var b := Body(i, base, sign, upper); b != "" && b[0] != ' ' && b[0] != '-'
  {
    hide DigitsOf;
    if i != 0 {
      DigitsStart(Magnitude(i, base, sign), base, upper);
    }
  }

  lemma ReadSigned(i: int, base: nat, sign: bool, digits: string, n: nat)
    requires digits != "" && digits[0] != ' ' && digits[0] != '-'
    ensures ReadInt(Repeat(' ', n) + Sign(i, base, sign) + digits, base)
            == (if Negative(i, base, sign) then -1 else 1) * ReadDigits(digits, base, 0)
  {
    hide ReadDigits, SkipBlanks, Repeat;
    var s := Sign(i, base, sign);
    assert Repeat(' ', n) + s + digits == Repeat(' ', n) + (s + digits);
    SkipsBlanks(n, s + digits);
    if s == "-" {
      assert (s + digits)[1..] == digits;
    } else {
      assert s + digits == digits;
    }
  }

  // ----- the round trip

  /** What a printed integer stands for: itself, or its 64-bit pattern without a sign. */
  function Meant(i: int, base: nat, sign: bool): int {
    if sign && base == 10 then i else ToU64(i)
  }

  lemma ZerosStart(n: nat, b: string)
    requires b != "" && b[0] != ' ' && b[0] != '-'
    ensures var t := Repeat('0', n) + b; t != "" && t[0] != ' ' && t[0] != '-'
  {
  }

  lemma MeantIsSigned(i: int, base: nat, sign: bool, p: nat)
    requires -TWO63 <= i < TWO63
    ensures var u := if i == 0 then 0 else Magnitude(i, base, sign);
            var k := if Negative(i, base, sign) then -1 else 1;
            k * u == Meant(i, base, sign) && k * (u * p) == Meant(i, base, sign) * p
  {
  }

  /** The text reads back as the integer printed; trailing zeros, which both flags together ask
      for, multiply it. */
  lemma ReadsBack(i: int, base: nat, sign: bool, width: int, flags: Flags, upper: bool)
    requires -TWO63 <= i < TWO63 && base in {2, 10, 16}
    ensures ReadInt(Rendered(i, base, sign, width, flags, upper), base)
            == Meant(i, base, sign)
               * if flags == Flags(true, true) then Power(base, Missing(i, base, sign, width, upper)) else 1
  {
    hide ReadInt, ReadDigits, Repeat, Rendered, Power, DigitsOf, Body, Missing, Sign;
    Shape(i, base, sign, width, flags, upper);
    BodyStart(i, base, sign, upper);
    EmptyRepeat(' ');
    var s, b, n := Sign(i, base, sign), Body(i, base, sign, upper), Missing(i, base, sign, width, upper);
    var u := if i == 0 then 0 else Magnitude(i, base, sign);
    var z := Repeat('0', n);
    if flags.right {
      var fill := Repeat(if flags.zero then '0' else ' ', n);
      assert s + b + fill == Repeat(' ', 0) + s + (b + fill);
      ReadSigned(i, base, sign, b + fill, 0);
      ReadsBody(i, base, sign, upper, fill);
      if flags.zero {
        assert fill == fill + "";
        ReadsZeros(n, base, u, "");
        ReadsNothing(0, base, u * Power(base, n));
      } else {
        ReadsNothing(n, base, u);
      }
    } else {
      assert b == b + "";
      ReadsBody(i, base, sign, upper, "");
      ReadsNothing(0, base, u);
      if flags.zero {
        assert s + z + b == Repeat(' ', 0) + s + (z + b);
        ZerosStart(n, b);
        ReadSigned(i, base, sign, z + b, 0);
        ReadsZeros(n, base, 0, b);
      } else {
        ReadSigned(i, base, sign, b, n);
      }
    }
    MeantIsSigned(i, base, sign, Power(base, n));
  }

  lemma Scaled(v: int, p: nat)
    requires p > 0
    ensures v * p == v <==> v == 0 || p == 1
  {
    if p > 1 {
      assert v * p == v * (p - 1) + v;
      assert v != 0 ==> v * (p - 1) != 0;
    }
  }

  lemma PowerExceedsOne(base: nat, n: nat)
    requires base >= 2
    ensures Power(base, n) >= 1 && (Power(base, n) == 1 <==> n == 0)
  {
    if n > 0 {
      PowerPositive(base, n - 1);
      MulBoth(2, 1, base, Power(base, n - 1));
    }
  }

  /** The round trip is exact unless both flags are set, there is something to fill, and the
      integer is not zero. */
  lemma RoundTrip(i: int, base: nat, sign: bool, width: int, flags: Flags, upper: bool)
    requires -TWO63 <= i < TWO63 && base in {2, 10, 16}
    ensures ReadInt(Rendered(i, base, sign, width, flags, upper), base) == Meant(i, base, sign)
            <==> !(flags.zero && flags.right && Missing(i, base, sign, width, upper) > 0 && i != 0)
  {
    hide ReadInt, Rendered, Power, Missing;
    ReadsBack(i, base, sign, width, flags, upper);
    var n := Missing(i, base, sign, width, upper);
    PowerExceedsOne(base, n);
    var v := Meant(i, base, sign);
    assert v == 0 <==> i == 0;
    Scaled(v, Power(base, n));
  }

  /** An input on which it fails: 1 in two columns with both flags is printed as 10. */
  lemma RoundTripFails()
    ensures ReadInt(Rendered(1, 10, true, 2, Flags(true, true), false), 10) != Meant(1, 10, true)
  {
    hide ReadInt, Rendered;
    assert DigitsOf(1, 10, false) == "1" by {
      DigitsStep(1, 10, false);
      NoDigits(10, false);
    }
    RoundTrip(1, 10, true, 2, Flags(true, true), false);
  }
}
