/** What formats print, in their own characters: literals, strings, characters and numbers, and the
    arguments each directive takes. */
module Formats {
  import opened Bits
  import opened Digits
  import opened Reading
  import opened Printf

  // ----- the language of formats, spelled out

  /** A directive before some tail: flags, a width or a star, and letters. */
  function Format(flags: Flags, width: Width, letters: string, tail: string): string {
    "%" + ((if flags.right then "-" else "")
           + ((if flags.zero then "0" else "")
              + ((if width.FromArgument? then "*" else DigitsOf(width.n, 10, false)) + (letters + tail))))
  }

  /** The arguments of a star, if there is one. */
  function Star(width: Width, w: int): seq<Arg> {
    if width.FromArgument? then [Int(w)] else []
  }

  /** w is the width that is asked for. */
  predicate Asks(width: Width, w: int) {
    width.Fixed? ==> w == width.n
  }

  lemma OneLetter(c: char, t: string)
    requires c !in {'l', 'h'}
    ensures Letters([c] + t) == (Plain(c), t)
  {
    assert ([c] + t)[1..] == t;
  }

  lemma MoreLetters(c: char, t: string)
    requires c !in {'l', 'h'}
    ensures Letters(['l', c] + t) == Letters(['l', 'l', c] + t) == (Sized(c, Long), t)
    ensures Letters(['h', c] + t) == (Sized(c, Half), t) && Letters(['h', 'h', c] + t) == (Sized(c, Byte), t)
  {
    assert (['l', c] + t)[2..] == t && (['l', 'l', c] + t)[3..] == t;
    assert (['h', c] + t)[2..] == t && (['h', 'h', c] + t)[3..] == t;
  }

  /** What each letter asks for. */
  lemma LetterTable(t: string)
    ensures Letters("d" + t) == (Integer(10, true, false, Word), t)
    ensures Letters("b" + t) == (Integer(2, true, false, Word), t)
    ensures Letters("u" + t) == (Integer(10, false, false, Word), t)
    ensures Letters("x" + t) == (Integer(16, false, false, Word), t)
    ensures Letters("X" + t) == (Integer(16, false, true, Word), t)
    ensures Letters("p" + t) == (Integer(16, false, false, Long), t)
    ensures Letters("c" + t) == (Character, t) && Letters("s" + t) == (Text, t)
    ensures Letters("ld" + t) == Letters("lld" + t) == (Integer(10, true, false, Long), t)
    ensures Letters("lu" + t) == Letters("llu" + t) == (Integer(10, false, false, Long), t)
    ensures Letters("lx" + t) == Letters("llx" + t) == (Integer(16, false, false, Long), t)
    ensures Letters("lX" + t) == Letters("llX" + t) == (Integer(16, false, true, Long), t)
    ensures Letters("hd" + t) == (Integer(10, true, false, Half), t)
    ensures Letters("hhd" + t) == (Integer(10, true, false, Byte), t)
  {
    OneLetter('d', t);
    OneLetter('b', t);
    OneLetter('u', t);
    OneLetter('x', t);
    OneLetter('X', t);
    OneLetter('p', t);
    OneLetter('c', t);
    OneLetter('s', t);
    MoreLetters('d', t);
    MoreLetters('u', t);
    MoreLetters('x', t);
    MoreLetters('X', t);
  }

  /** Letters that can be told from flags and width. */
  predicate Lettered(letters: string) {
    letters != "" && letters[0] !in {'-', '%', '*'} && !('0' <= letters[0] <= '9')
  }

  /** A directive with any letters is read as it was written. */
  lemma Reads(flags: Flags, width: Width, letters: string, conv: Conv, tail: string)
    requires Lettered(letters) && Letters(letters + tail) == (conv, tail)
    ensures Parse(Format(flags, width, letters, tail)) == [Convert(flags, width, conv)] + Parse(tail)
  {
    hide Parse, Letters, WidthAt, AfterZeros, DigitsOf;
    var l := letters + tail;
    var f := Format(flags, width, letters, tail);
    WidthAtBack(width, l);
    FlagsBack(flags, WriteWidth(width) + l);
    ParsePercent(f);
    assert f[1..] == (if flags.right then "-" else "") + ((if flags.zero then "0" else "") + (WriteWidth(width) + l));
  }

  /** One directive prints its piece, then the tail with the arguments left. */
  lemma Prints1(flags: Flags, width: Width, w: int, letters: string, conv: Conv, tail: string,
                arg: Arg, args: seq<Arg>)
    requires Lettered(letters) && Letters(letters + tail) == (conv, tail) && Asks(width, w) && !conv.Ignored?
    ensures Render(Parse(Format(flags, width, letters, tail)), Star(width, w) + ([arg] + args))
         == Piece(conv, w, flags, arg) + Render(Parse(tail), args)
  {
    hide Parse, Letters, Piece, Format, Render;
    Reads(flags, width, letters, conv, tail);
    var all := Star(width, w) + ([arg] + args);
    RenderStep(Convert(flags, width, conv), Parse(tail), all);
    if width.FromArgument? {
      assert all[1..] == [arg] + args;
    } else {
      assert all == [arg] + args;
    }
    assert ([arg] + args)[1..] == args;
  }

  // ----- literals

  /** Text as it is printed: a carriage return before each newline. */
  function WithReturns(f: string): string {
    if f == "" then "" else (if f[0] == '\n' then "\r\n" else [f[0]]) + WithReturns(f[1..])
  }

  function WithoutReturns(f: string): string {
    if f == "" then "" else (if f[0] == '\r' then "" else [f[0]]) + WithoutReturns(f[1..])
  }

  /** Characters other than the percent sign are printed as they are, newlines after a return. */
  lemma {:induction false} LiteralsPrinted(f: string, tail: string, args: seq<Arg>)
    requires '%' !in f
    ensures Render(Parse(f + tail), args) == WithReturns(f) + Render(Parse(tail), args)
    ensures Newlines(Parse(f + tail)) == |WithReturns(f)| - |f| + Newlines(Parse(tail))
  {
    hide Parse, Render, Newlines;
    if f == "" {
      assert f + tail == tail;
    } else {
      assert (f + tail)[1..] == f[1..] + tail && (f + tail)[0] == f[0];
      ParseLiteral(f + tail);
      RenderStep(Literal(f[0]), Parse(f[1..] + tail), args);
      LiteralsPrinted(f[1..], tail, args);
    }
  }

  /** Without a newline they are printed unchanged, and otherwise dropping the returns gives them
      back. */
  lemma {:induction false} ReturnsOnly(f: string)
    ensures '\n' !in f ==> WithReturns(f) == f
    ensures '\r' !in f ==> WithoutReturns(WithReturns(f)) == f
  {
    if f == "" {
    } else {
      ReturnsOnly(f[1..]);
      var rest := WithReturns(f[1..]);
      assert f == [f[0]] + f[1..];
      if f[0] == '\n' {
        assert ("\r\n" + rest)[1..] == "\n" + rest && ("\n" + rest)[1..] == rest;
      } else {
        assert ([f[0]] + rest)[1..] == rest;
      }
    }
  }

  lemma PercentPrinted(tail: string, args: seq<Arg>)
    ensures Render(Parse("%%" + tail), args) == "%" + Render(Parse(tail), args)
  {
    hide Parse, Render;
    ParseWriteLiteral('%', tail);
    RenderStep(Literal('%'), Parse(tail), args);
  }

  // ----- directives

  /** s in a field of w columns, to the right of the filling unless asked otherwise. */
  function InField(s: string, w: int, flags: Flags): string {
    var fill := seq(if w > |s| then w - |s| else 0, _ => if flags.zero then '0' else ' ');
    if flags.right then s + fill else fill + s
  }

  lemma FieldIsPadded(s: string, w: int, flags: Flags)
    ensures Padded(s, w, flags) == InField(s, w, flags)
  {
    assert Fill(s, w, flags) == seq(if w > |s| then w - |s| else 0, _ => if flags.zero then '0' else ' ');
  }

  /** %s takes one string, besides a star's width, and prints it in its field; a null pointer as
      "(null)". */
  lemma StringPrinted(flags: Flags, width: Width, w: int, s: string, tail: string, args: seq<Arg>)
    requires Asks(width, w)
    ensures Render(Parse(Format(flags, width, "s", tail)), Star(width, w) + ([Str(s)] + args))
         == InField(s, w, flags) + Render(Parse(tail), args)
    ensures Render(Parse(Format(flags, width, "s", tail)), Star(width, w) + ([Null] + args))
         == InField("(null)", w, flags) + Render(Parse(tail), args)
  {
    hide Parse, Render, Letters, Format;
    LetterTable(tail);
    Prints1(flags, width, w, "s", Text, tail, Str(s), args);
    Prints1(flags, width, w, "s", Text, tail, Null, args);
    FieldIsPadded(s, w, flags);
    FieldIsPadded("(null)", w, flags);
  }

  /** %c takes one integer and prints the character of its low byte, or none for NUL. */
  lemma CharacterPrinted(flags: Flags, width: Width, w: int, n: int, tail: string, args: seq<Arg>)
    requires Asks(width, w)
    ensures Render(Parse(Format(flags, width, "c", tail)), Star(width, w) + ([Int(n)] + args))
         == InField(if n % 256 == 0 then "" else [(n % 256) as char], w, flags) + Render(Parse(tail), args)
  {
    hide Parse, Render, Letters, Format, Padded, InField;
    LetterTable(tail);
    Prints1(flags, width, w, "c", Character, tail, Int(n), args);
    FieldIsPadded(if n % 256 == 0 then "" else [(n % 256) as char], w, flags);
  }

  /** An integer conversion takes one integer and prints it in its base, with its sign, width, flags
      and case: itself, or, for h and hh, converted to its C type. */
  lemma NumberPrinted(flags: Flags, width: Width, w: int, letters: string, conv: Conv, n: int, tail: string,
                      args: seq<Arg>) returns (i: int)
    requires Asks(width, w) && Lettered(letters) && Letters(letters + tail) == (conv, tail)
    requires conv.Integer? && Writable(conv) && Accepts(conv, Int(n))
    ensures Render(Parse(Format(flags, width, letters, tail)), Star(width, w) + ([Int(n)] + args))
         == Rendered(i, conv.base, conv.sign, w, flags, conv.upper) + Render(Parse(tail), args)
    ensures conv.sign ==> ConvertsTo(conv.size, n, i)
    ensures conv.size == Word || (conv.size == Long && conv.sign) ==> i == n
    ensures conv.size == Long ==> ToU64(i) == ToU64(n) && -TWO63 <= i < TWO63
  {
    hide Parse, Render, Letters, Format, Rendered, ConvertsTo;
    Prints1(flags, width, w, letters, conv, tail, Int(n), args);
    i := Fetched(conv.size, n);
    if conv.sign {
      Narrowed(conv.size, n);
    }
  }

  /** A directive with an unknown letter prints nothing, and takes nothing but a star's width. */
  lemma UnknownPrinted(flags: Flags, width: Width, w: int, c: char, tail: string, args: seq<Arg>)
    requires c !in {'d', 'b', 'u', 'p', 'x', 'X', 'c', 's', 'l', 'h'} && Lettered([c]) && Asks(width, w)
    ensures Render(Parse(Format(flags, width, [c], tail)), Star(width, w) + args) == Render(Parse(tail), args)
  {
    hide Parse, Render, Letters, Format;
    OneLetter(c, tail);
    Reads(flags, width, [c], Ignored, tail);
    RenderStep(Convert(flags, width, Ignored), Parse(tail), Star(width, w) + args);
    if width.FromArgument? {
      assert ([Int(w)] + args)[1..] == args;
    } else {
      assert [] + args == args;
    }
    Unsigned(Render(Parse(tail), args));
  }

  /** %p prints as %lx does, and the ll forms as the l forms. */
  lemma Synonyms(flags: Flags, width: Width, tail: string, args: seq<Arg>)
    ensures Parse(Format(flags, width, "p", tail)) == Parse(Format(flags, width, "lx", tail))
    ensures Parse(Format(flags, width, "lld", tail)) == Parse(Format(flags, width, "ld", tail))
    ensures Parse(Format(flags, width, "llu", tail)) == Parse(Format(flags, width, "lu", tail))
    ensures Parse(Format(flags, width, "llx", tail)) == Parse(Format(flags, width, "lx", tail))
    ensures Parse(Format(flags, width, "llX", tail)) == Parse(Format(flags, width, "lX", tail))
  {
    hide Parse, Letters, Format;
    LetterTable(tail);
    var hex, upper := Integer(16, false, false, Long), Integer(16, false, true, Long);
    Reads(flags, width, "p", hex, tail);
    Reads(flags, width, "lx", hex, tail);
    Reads(flags, width, "llx", hex, tail);
    Reads(flags, width, "lX", upper, tail);
    Reads(flags, width, "llX", upper, tail);
    Reads(flags, width, "ld", Integer(10, true, false, Long), tail);
    Reads(flags, width, "lld", Integer(10, true, false, Long), tail);
    Reads(flags, width, "lu", Integer(10, false, false, Long), tail);
    Reads(flags, width, "llu", Integer(10, false, false, Long), tail);
  }

  /** Arguments are taken in order: %d%d of m and n prints m, then n. */
  lemma TwoNumbers(m: int, n: int)
    requires -0x8000_0000 <= m < 0x8000_0000 && -0x8000_0000 <= n < 0x8000_0000
    ensures Render(Parse("%d%d"), [Int(m), Int(n)])
         == Rendered(m, 10, true, 0, Flags(false, false), false) + Rendered(n, 10, true, 0, Flags(false, false), false)
  {
    hide Parse, Render, Letters, Rendered;
    var conv, none := Integer(10, true, false, Word), Flags(false, false);
    NoDigits(10, false);
    LetterTable("%d");
    LetterTable("");
    assert Format(none, Fixed(0), "d", "%d") == "%d%d" && Format(none, Fixed(0), "d", "") == "%d";
    assert Star(Fixed(0), 0) + ([Int(m)] + [Int(n)]) == [Int(m), Int(n)];
    assert Star(Fixed(0), 0) + ([Int(n)] + []) == [Int(n)];
    var i := NumberPrinted(none, Fixed(0), 0, "d", conv, m, "%d", [Int(n)]);
    var j := NumberPrinted(none, Fixed(0), 0, "d", conv, n, "", []);
    ParseEnd("");
    RenderEnd([]);
    Unsigned(Rendered(n, 10, true, 0, none, false));
  }
}
