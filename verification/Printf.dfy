/** simple_vsprintf: the format interpreter against a pure parse-then-render specification. */
module Printf {
  import opened Bits
  import opened Digits
  import opened Reading

  // ----- directives

  /** The C type a number is fetched into: char, short, int, and the 64-bit types. */
  datatype Size = Byte | Half | Word | Long

  datatype Conv =
    | Integer(base: nat, sign: bool, upper: bool, size: Size)
    | Character
    | Text
    | Ignored    // an unknown letter: consumed, and nothing printed
    | Stale      // %hu, %hx, %hX and the hh forms read union bytes nobody wrote
    | Truncated  // the format ends inside the directive

  datatype Width = Fixed(n: nat) | FromArgument

  datatype Directive = Literal(c: char) | Convert(flags: Flags, width: Width, conv: Conv)

  function Plain(c: char): Conv {
    match c
    case 'd' => Integer(10, true, false, Word)
    case 'b' => Integer(2, true, false, Word)
    case 'u' => Integer(10, false, false, Word)
    case 'p' => Integer(16, false, false, Long)
    case 'x' => Integer(16, false, false, Word)
    case 'X' => Integer(16, false, true, Word)
    case 'c' => Character
    case 's' => Text
    case _ => Ignored
  }

  /** The letter after l, ll, h or hh. */
  function Sized(c: char, size: Size): Conv {
    if c == 'd' then Integer(10, true, false, size)
    else if c !in {'u', 'x', 'X'} then Ignored
    else if size != Long then Stale
    else Integer(if c == 'u' then 10 else 16, false, c == 'X', size)
  }

  /** The innermost switches: the conversion f starts with, and the format behind it. */
  function Letters(f: string): (Conv, string) {
    if f == "" then (Truncated, "")
    else if f[0] !in {'l', 'h'} then (Plain(f[0]), f[1..])
    else if |f| == 1 then (Truncated, "")
    else if f[1] != f[0] then (Sized(f[1], if f[0] == 'l' then Long else Half), f[2..])
    else if |f| == 2 then (Truncated, "")
    else (Sized(f[2], if f[0] == 'l' then Long else Byte), f[3..])
  }

  predicate Starts(f: string, lo: char, hi: char) {
    f != "" && lo <= f[0] <= hi
  }

  function AfterZeros(f: string): (g: string)
    ensures |g| <= |f|
  {
    if Starts(f, '0', '0') then AfterZeros(f[1..]) else f
  }

  function ReadWidth(f: string, width: nat): (r: (nat, string))
    ensures |r.1| <= |f|
  {
    if Starts(f, '0', '9') then ReadWidth(f[1..], width * 10 + (f[0] - '0') as nat) else (width, f)
  }

  function WidthAt(f: string): (r: (Width, string))
    ensures |r.1| <= |f|
  {
    if Starts(f, '*', '*') then (FromArgument, f[1..]) else var (n, g) := ReadWidth(f, 0); (Fixed(n), g)
  }

  /** The directive behind a percent sign, and the format behind it. */
  function DirectiveAt(f: string): (r: (Directive, string))
    ensures f != "" ==> |r.1| < |f|
  {
    var right := Starts(f, '-', '-');
    var g := if right then f[1..] else f;
    var h := AfterZeros(g);
    var (w, k) := WidthAt(h);
    var (c, rest) := Letters(k);
    (Convert(Flags(h != g, right), w, c), rest)
  }

  function Parse(f: string): seq<Directive>
    decreases |f|
  {
    if f == "" then []
    else if f[0] != '%' then [Literal(f[0])] + Parse(f[1..])
    else if |f| == 1 then []
    else if f[1] == '%' then [Literal('%')] + Parse(f[2..])
    else var (d, rest) := DirectiveAt(f[1..]); [d] + Parse(rest)
  }

  // ----- arguments

  datatype Arg = Int(n: int) | Str(s: string) | Null

  function Head(args: seq<Arg>): Arg {
    if args == [] then Null else args[0]
  }

  function Tail(args: seq<Arg>): seq<Arg> {
    if args == [] then [] else args[1..]
  }

  /** The argument is of the type the directive fetches. A binary number must not be negative,
      and a signed 64-bit one must have a negation. */
  predicate Accepts(conv: Conv, arg: Arg) {
    match conv
    case Integer(base, sign, _, size) =>
      arg.Int?
      && (if size == Long then if sign then -TWO63 < arg.n < TWO63 else 0 <= arg.n < TWO64
          else if sign then -0x8000_0000 <= arg.n < 0x8000_0000 else 0 <= arg.n < 0x1_0000_0000)
      && (base == 2 ==> arg.n >= 0)
    case Character => arg.Int?
    case Text => arg.Null? || (arg.Str? && '\0' !in arg.s)
    case _ => false
  }

  /** The arguments left once the width is known. */
  function Behind(width: Width, args: seq<Arg>): seq<Arg> {
    if width.FromArgument? then Tail(args) else args
  }

  /** The arguments one directive fetches are there, and of the right types. */
  predicate Fits(d: Directive, args: seq<Arg>) {
    match d
    case Literal(_) => true
    case Convert(_, width, conv) =>
      && (width.FromArgument? ==> Head(args).Int? && -0x8000_0000 < Head(args).n < 0x8000_0000)
      && (width.Fixed? ==> width.n < 0x8000_0000)
      && (conv.Ignored? || (Behind(width, args) != [] && Accepts(conv, Head(Behind(width, args)))))
  }

  /** The arguments one directive leaves. */
  function Left(d: Directive, args: seq<Arg>): seq<Arg> {
    match d
    case Literal(_) => args
    case Convert(_, width, conv) =>
      if conv.Ignored? then Behind(width, args) else Tail(Behind(width, args))
  }

  predicate Matches(ds: seq<Directive>, args: seq<Arg>) {
    ds != [] ==> Fits(ds[0], args) && Matches(ds[1..], Left(ds[0], args))
  }

  function WidthOf(width: Width, args: seq<Arg>): int {
    match width
    case Fixed(n) => n
    case FromArgument => if Head(args).Int? then Head(args).n else 0
  }

  // ----- what must be printed

  /** The number fetched: narrowed to its type, then widened to long long. */
  function Fetched(size: Size, n: int): int {
    match size
    case Byte => (n + 0x80) % 0x100 - 0x80
    case Half => (n + 0x8000) % 0x1_0000 - 0x8000
    case Word => n
    case Long => ToI64(ToU64(n))
  }

  /** A character as a C string: empty for NUL. */
  function CharText(n: int): string {
    if n % 256 == 0 then "" else [(n % 256) as char]
  }

  function Piece(conv: Conv, width: int, flags: Flags, arg: Arg): string {
    match (conv, arg)
    case (Integer(base, sign, upper, size), Int(n)) =>
      if 2 <= base <= 16 then Rendered(Fetched(size, n), base, sign, width, flags, upper) else ""
    case (Character, Int(n)) => Padded(CharText(n), width, flags)
    case (Text, Str(s)) => Padded(s, width, flags)
    case (Text, Null) => Padded("(null)", width, flags)
    case _ => ""
  }

  function LiteralText(c: char): string {
    if c == '\n' then "\r\n" else [c]
  }

  /** What one directive prints. */
  function TextOf(d: Directive, args: seq<Arg>): string {
    match d
    case Literal(c) => LiteralText(c)
    case Convert(flags, width, conv) => Piece(conv, WidthOf(width, args), flags, Head(Behind(width, args)))
  }

  function Render(ds: seq<Directive>, args: seq<Arg>): string {
    if ds == [] then "" else TextOf(ds[0], args) + Render(ds[1..], Left(ds[0], args))
  }

  function Newlines(ds: seq<Directive>): nat {
    if ds == [] then 0 else (if ds[0] == Literal('\n') then 1 else 0) + Newlines(ds[1..])
  }

  // ----- one step of each function

  lemma ParseLiteral(f: string)
    requires f != "" && f[0] != '%'
    ensures Parse(f) == [Literal(f[0])] + Parse(f[1..])
  {
    hide AfterZeros, ReadWidth, Letters;
  }

  lemma ParsePercent(f: string)
    requires |f| > 1 && f[0] == '%'
    ensures Parse(f) == if f[1] == '%' then [Literal('%')] + Parse(f[2..])
                        else [DirectiveAt(f[1..]).0] + Parse(DirectiveAt(f[1..]).1)
  {
    hide AfterZeros, ReadWidth, Letters, DirectiveAt;
  }

  lemma ParseEnd(f: string)
    requires f == "" || f == "%"
    ensures Parse(f) == []
  {
  }

  lemma RenderEnd(args: seq<Arg>)
    ensures Render([], args) == "" && Newlines([]) == 0
  {
  }

  lemma RenderStep(d: Directive, ds: seq<Directive>, args: seq<Arg>)
    ensures Render([d] + ds, args) == TextOf(d, args) + Render(ds, Left(d, args))
    ensures Matches([d] + ds, args) <==> Fits(d, args) && Matches(ds, Left(d, args))
    ensures Newlines([d] + ds) == (if d == Literal('\n') then 1 else 0) + Newlines(ds)
  {
    hide TextOf, Fits, Left;
    assert ([d] + ds)[1..] == ds;
  }

  // ----- the code

  method SkipZeros(f: string) returns (g: string)
    ensures g == AfterZeros(f)
  {
    g := f;
    while g != "" && g[0] == '0'
      invariant AfterZeros(g) == AfterZeros(f)
      decreases |g|
    {
      g := g[1..];
    }
  }

  method ScanWidth(f: string) returns (width: nat, g: string)
    ensures (width, g) == ReadWidth(f, 0)
  {
    width, g := 0, f;
    while g != "" && '0' <= g[0] <= '9'
      invariant ReadWidth(g, width) == ReadWidth(f, 0)
      decreases |g|
    {
      width, g := width * 10 + (g[0] - '0') as nat, g[1..];
    }
  }

  /** The conversions that have letters. */
  predicate Writable(conv: Conv) {
    match conv
    case Integer(base, sign, upper, size) =>
      if sign then !upper && (base == 10 || (base == 2 && size == Word))
      else size in {Word, Long} && (base == 16 || (base == 10 && !upper))
    case Character => true
    case Text => true
    case _ => false
  }

  lemma FetchedFits(conv: Conv, arg: Arg)
    requires conv.Integer? && Accepts(conv, arg)
    requires Writable(conv)
    ensures var i := Fetched(conv.size, arg.n);
            -TWO63 <= i < TWO63 && FitsBuffer(i, conv.base, conv.sign)
            && (conv.sign && conv.base == 10 ==> i > -TWO63)
  {
    hide FitsBuffer;
    BufferSuffices(Fetched(conv.size, arg.n), conv.base, conv.sign);
  }

  /** One arm of the switch: fetch the argument and print it. */
  method Output(out: Sink?, conv: Conv, width: int, flags: Flags, arg: Arg) returns (pc: nat)
    requires conv.Ignored? || Accepts(conv, arg)
    requires conv.Integer? ==> Writable(conv)
    modifies if out == null then {} else {out}
    ensures pc == |Piece(conv, width, flags, arg)|
    ensures out != null ==>
              out.text == old(out.text) + Piece(conv, width, flags, arg) && out.terminated == old(out.terminated)
  {
    hide Rendered, Padded, FitsBuffer;
    match conv {
      case Integer(base, sign, upper, size) =>
        FetchedFits(conv, arg);
        pc := SimpleOutputI(out, Fetched(size, arg.n), base, sign, width, flags, upper);
      case Character =>
        pc := Prints(out, CharText(arg.n), width, flags);
      case Text =>
        pc := Prints(out, if arg.Str? then arg.s else "(null)", width, flags);
      case Ignored =>
        pc := 0;
    }
  }

  /** The out label: a newline is preceded by a carriage return. */
  method OutputLiteral(out: Sink?, c: char)
    modifies if out == null then {} else {out}
    ensures out != null ==>
              out.text == old(out.text) + LiteralText(c) && out.terminated == old(out.terminated)
  {
    if c == '\n' {
      SimpleOutputChar(out, '\r');
    }
    SimpleOutputChar(out, c);
  }

  lemma Advance(done: string, piece: string, rest: string)
    ensures done + (piece + rest) == (done + piece) + rest
  {
  }

  lemma LiteralIs(c: char, args: seq<Arg>)
    ensures TextOf(Literal(c), args) == LiteralText(c) && Left(Literal(c), args) == args
    ensures |LiteralText(c)| == 1 + if c == '\n' then 1 else 0
  {
  }

  lemma Appended(start: string, done: string, piece: string, was: string, now: string)
    requires was == start + done && now == was + piece
    ensures now == start + (done + piece)
  {
  }

  /** The first directive of a format, and where the parser goes on. */
  lemma ParseStep(f: string)
    requires f != "" && f != "%"
    ensures var ds := Parse(f);
            && ds != [] && ds == [ds[0]] + ds[1..]
            && if f[0] != '%' then ds[0] == Literal(f[0]) && ds[1..] == Parse(f[1..])
               else if f[1] == '%' then ds[0] == Literal('%') && ds[1..] == Parse(f[1..][1..])
               else ds[0] == DirectiveAt(f[1..]).0 && ds[1..] == Parse(DirectiveAt(f[1..]).1)
  {
    hide Parse, DirectiveAt;
    if f[0] != '%' {
      ParseLiteral(f);
    } else {
      ParsePercent(f);
      assert f[1..][1..] == f[2..];
    }
  }

  /** The conversions with letters are all that a format can ask for, besides unknown letters,
      stale reads and truncation. */
  lemma LettersAreWritable(f: string)
    ensures var c := Letters(f).0; Writable(c) <==> !(c.Ignored? || c.Stale? || c.Truncated?)
  {
  }

  /** The part of the loop body behind a percent sign. */
  method Directed(out: Sink?, format: string, args: seq<Arg>) returns (pc: nat, rest: string, left: seq<Arg>)
    requires format != "" && Fits(DirectiveAt(format).0, args)
    modifies if out == null then {} else {out}
    ensures rest == DirectiveAt(format).1 && |rest| < |format|
    ensures left == Left(DirectiveAt(format).0, args)
    ensures pc == |TextOf(DirectiveAt(format).0, args)| && DirectiveAt(format).0.Convert?
    ensures out != null ==> out.text == old(out.text) + TextOf(DirectiveAt(format).0, args)
  {
    hide Piece, Accepts, AfterZeros, ReadWidth, Letters;
    var f, right := format, false;
    if f[0] == '-' {
      f, right := f[1..], true;
    }
    var g := SkipZeros(f);
    var flags := Flags(g != f, right);
    var width: int, k := 0, g;
    left := args;
    if g != "" && g[0] == '*' {
      width, left, k := WidthOf(FromArgument, args), Tail(args), g[1..];
    } else {
      width, k := ScanWidth(g);
    }
    var (conv, behind) := Letters(k);
    LettersAreWritable(k);
    pc := Output(out, conv, width, flags, Head(left));
    if !conv.Ignored? {
      left := Tail(left);
    }
    rest := behind;
  }

  /** For every format and matching arguments: what is emitted is the rendering of the parsed
      format, and its length is the count returned plus one carriage return for each literal
      newline. The count does not depend on there being an output. */
  method SimpleVsprintf(out: Sink?, format0: string, args0: seq<Arg>) returns (pc: nat)
    requires '\0' !in format0 && Matches(Parse(format0), args0)
    modifies if out == null then {} else {out}
    ensures pc + Newlines(Parse(format0)) == |Render(Parse(format0), args0)|
    ensures out != null ==> out.terminated && out.text == old(out.text) + Render(Parse(format0), args0)
  {
    hide Parse, Render, Newlines, Matches, DirectiveAt, TextOf, Left, Fits;
    var format, args := format0, args0;
    pc := 0;
    ghost var done, ds := "", Parse(format);
    Unsigned(Render(ds, args));
    if out != null {
      Unsigned(out.text);
    }
    while format != ""
      invariant ds == Parse(format) && Matches(ds, args)
      invariant Render(Parse(format0), args0) == done + Render(ds, args)
      invariant pc + Newlines(Parse(format0)) == |done| + Newlines(ds)
      invariant out != null ==> out.text == old(out.text) + done
      decreases |format|
    {
      if format == "%" {
        break;
      }
      ParseStep(format);
      ghost var d, piece, was := ds[0], TextOf(ds[0], args), if out != null then out.text else "";
      RenderStep(d, ds[1..], args);
      Advance(done, piece, Render(ds[1..], Left(d, args)));
      if format[0] == '%' && format[1] != '%' {
        var n;
        n, format, args := Directed(out, format[1..], args);
        pc := pc + n;
      } else {
        if format[0] == '%' {
          format := format[1..];
        }
        LiteralIs(format[0], args);
        OutputLiteral(out, format[0]);
        pc, format := pc + 1, format[1..];
      }
      if out != null {
        Appended(old(out.text), done, piece, was, out.text);
      }
      done, ds := done + piece, ds[1..];
    }
    ParseEnd(format);
    RenderEnd(args);
    if out != null {
      out.terminated := true;
    }
  }

  /** The local buffer of my_printf. */
  const G_BUFF_LEN := 1024

  lemma {:induction false} NewlinesFit(ds: seq<Directive>, args: seq<Arg>)
    ensures Newlines(ds) <= |Render(ds, args)|
  {
    if ds == [] {
    } else {
      NewlinesFit(ds[1..], Left(ds[0], args));
    }
  }

  /** The rendering without as many characters at its end as there are literal newlines. */
  function Written(ds: seq<Directive>, args: seq<Arg>): string {
    NewlinesFit(ds, args);
    Render(ds, args)[..|Render(ds, args)| - Newlines(ds)]
  }

  /** my_printf hands as many characters of its buffer to the output as simple_vsprintf returned,
      so each literal newline costs one character at the end: all is written if and only if the
      format has none. */
  method MyPrintf(format: string, args: seq<Arg>) returns (res: nat, written: string)
    requires '\0' !in format && Matches(Parse(format), args)
    requires |Render(Parse(format), args)| < G_BUFF_LEN
    ensures written == Written(Parse(format), args) && res == |written|
    ensures written == Render(Parse(format), args) <==> Newlines(Parse(format)) == 0
  {
    hide Parse, Render, Newlines, Matches;
    var out := new Sink();
    res := SimpleVsprintf(out, format, args);
    written := out.text[..res];
    Unsigned(Render(Parse(format), args));
  }

  /** An input on which a character is lost: of the line end that a lone newline is rendered as,
      only the carriage return is written. */
  lemma NewlineLost()
    ensures Render(Parse("\n"), []) == "\r\n" && Written(Parse("\n"), []) == "\r"
  {
    ParseLiteral("\n");
    ParseEnd("");
    assert Parse("\n") == [Literal('\n')];
  }

  // ----- the parser undoes the writing of directives

  function Prefix(size: Size): string {
    match size
    case Byte => "hh"
    case Half => "h"
    case Word => ""
    case Long => "l"
  }

  function IntegerLetter(base: nat, sign: bool, upper: bool): char {
    if base == 2 then 'b' else if sign then 'd' else if base == 10 then 'u' else if upper then 'X' else 'x'
  }

  function WriteLetters(conv: Conv): string {
    match conv
    case Integer(base, sign, upper, size) => Prefix(size) + [IntegerLetter(base, sign, upper)]
    case Character => "c"
    case _ => "s"
  }

  function WriteWidth(width: Width): string {
    match width
    case Fixed(n) => DigitsOf(n, 10, false)
    case FromArgument => "*"
  }

  function Write(d: Directive): string {
    match d
    case Literal(c) => if c == '%' then "%%" else [c]
    case Convert(flags, width, conv) =>
      "%" + ((if flags.right then "-" else "")
             + ((if flags.zero then "0" else "") + (WriteWidth(width) + WriteLetters(conv))))
  }

  function WriteAll(ds: seq<Directive>): string {
    if ds == [] then "" else Write(ds[0]) + WriteAll(ds[1..])
  }

  predicate AllWritable(ds: seq<Directive>) {
    forall k :: 0 <= k < |ds| && ds[k].Convert? ==> Writable(ds[k].conv)
  }

  /** Nothing a directive starts with from its width on can be taken for a flag. */
  predicate PastFlags(f: string) {
    f != "" && f[0] !in {'-', '0', '%'}
  }

  lemma LettersBack(conv: Conv, tail: string)
    requires Writable(conv)
    ensures var f := WriteLetters(conv) + tail;
            Letters(f) == (conv, tail) && PastFlags(f) && !Starts(f, '0', '9') && !Starts(f, '*', '*')
  {
    var f := WriteLetters(conv) + tail;
    var n := |WriteLetters(conv)|;
    assert f[n..] == tail;
    assert forall k :: 0 <= k < n ==> f[k] == WriteLetters(conv)[k];
  }

  lemma ReadWidthOne(c: char, f: string, width: nat)
    requires '0' <= c <= '9'
    ensures ReadWidth([c] + f, width) == ReadWidth(f, width * 10 + (c - '0') as nat)
  {
    assert ([c] + f)[1..] == f;
  }

  lemma DecimalDigit(d: nat)
    requires d < 10
    ensures var c := DigitChar(d, false); '0' <= c <= '9' && (c - '0') as nat == d && (c == '0' <==> d == 0)
  {
  }

  lemma {:induction false} WidthBack(n: nat, f: string)
    ensures ReadWidth(DigitsOf(n, 10, false) + f, 0) == ReadWidth(f, n)
    ensures var w := DigitsOf(n, 10, false); n > 0 ==> Starts(w, '1', '9')
  {
    hide ReadWidth, DigitsOf, DigitChar;
    if n == 0 {
      NoDigits(10, false);
      assert "" + f == f;
    } else {
      DivShrinks(n, 10);
      DigitsStep(n, 10, false);
      DecimalDigit(n % 10);
      var q, c := n / 10, DigitChar(n % 10, false);
      assert DigitsOf(q, 10, false) + [c] + f == DigitsOf(q, 10, false) + ([c] + f);
      WidthBack(q, [c] + f);
      ReadWidthOne(c, f, q);
      NoDigits(10, false);
      assert q == 0 ==> DigitsOf(n, 10, false) == [c];
    }
  }

  lemma WidthAtBack(width: Width, f: string)
    requires PastFlags(f) && !Starts(f, '0', '9') && !Starts(f, '*', '*')
    ensures WidthAt(WriteWidth(width) + f) == (width, f) && PastFlags(WriteWidth(width) + f)
  {
    hide DigitsOf;
    match width {
      case Fixed(n) =>
        WidthBack(n, f);
        NoDigits(10, false);
        assert "" + f == f;
      case FromArgument =>
        assert ("*" + f)[1..] == f;
    }
  }

  lemma FlagsBack(flags: Flags, w: string)
    requires PastFlags(w)
    ensures var z := (if flags.zero then "0" else "") + w; var f := (if flags.right then "-" else "") + z;
            && AfterZeros(z) == w && (z != w <==> flags.zero) && !Starts(z, '-', '-')
            && Starts(f, '-', '-') == flags.right && (if flags.right then f[1..] else f) == z
            && f != "" && f[0] != '%'
  {
    var z := (if flags.zero then "0" else "") + w;
    if flags.zero {
      assert z[1..] == w;
    } else {
      assert z == w;
    }
  }

  lemma JoinFour(a: string, b: string, c: string, d: string, e: string)
    ensures (a + (b + (c + d))) + e == a + (b + (c + (d + e)))
  {
  }

  lemma DirectiveBack(d: Directive, tail: string)
    requires d.Convert? && Writable(d.conv)
    ensures Write(d) != "" && Write(d)[0] == '%'
    ensures var f := Write(d)[1..] + tail;
            DirectiveAt(f) == (d, tail) && f != "" && f[0] != '%'
  {
    hide WriteWidth, WriteLetters, WidthAt, AfterZeros, Letters, Writable, PastFlags;
    var l := WriteLetters(d.conv) + tail;
    LettersBack(d.conv, tail);
    WidthAtBack(d.width, l);
    FlagsBack(d.flags, WriteWidth(d.width) + l);
    JoinFour(if d.flags.right then "-" else "", if d.flags.zero then "0" else "",
             WriteWidth(d.width), WriteLetters(d.conv), tail);
  }

  lemma ParseWriteLiteral(c: char, tail: string)
    ensures Parse(Write(Literal(c)) + tail) == [Literal(c)] + Parse(tail)
  {
    hide Parse, DirectiveAt;
    if c == '%' {
      assert ("%%" + tail)[2..] == tail;
      ParsePercent("%%" + tail);
    } else {
      assert ([c] + tail)[1..] == tail;
      ParseLiteral([c] + tail);
    }
  }

  lemma ParseWriteConvert(d: Directive, tail: string)
    requires d.Convert? && Writable(d.conv)
    ensures Parse(Write(d) + tail) == [d] + Parse(tail)
  {
    hide Parse, DirectiveAt, Writable, Write;
    DirectiveBack(d, tail);
    var w := Write(d);
    assert (w + tail)[1..] == w[1..] + tail;
    ParsePercent(w + tail);
  }

  /** Parsing undoes writing, for every list of directives. */
  lemma {:induction false} ParseWriteAll(ds: seq<Directive>)
    requires AllWritable(ds)
    ensures Parse(WriteAll(ds)) == ds
  {
    hide Parse, Write;
    if ds == [] {
      ParseEnd("");
    } else {
      match ds[0] {
        case Literal(c) => ParseWriteLiteral(c, WriteAll(ds[1..]));
        case Convert(_, _, _) => ParseWriteConvert(ds[0], WriteAll(ds[1..]));
      }
      ParseWriteAll(ds[1..]);
    }
  }

  // ----- printed arguments

  /** v is n converted to a signed C type: in its range, and the same modulo its size. */
  predicate ConvertsTo(size: Size, n: int, v: int) {
    match size
    case Byte => -0x80 <= v < 0x80 && (v - n) % 0x100 == 0
    case Half => -0x8000 <= v < 0x8000 && (v - n) % 0x1_0000 == 0
    case Word => -0x8000_0000 <= v < 0x8000_0000 && (v - n) % 0x1_0000_0000 == 0
    case Long => -TWO63 <= v < TWO63 && (v - n) % TWO64 == 0
  }

  lemma Narrowed(size: Size, n: int)
    requires size == Word ==> -0x8000_0000 <= n < 0x8000_0000
    ensures ConvertsTo(size, n, Fetched(size, n))
  {
  }

  /** What %d, %u, %x and the others print reads back, at any width and with any flags but both
      together: signed decimals as the argument narrowed to its C type, all others as the argument. */
  lemma ArgumentReadsBack(conv: Conv, width: int, flags: Flags, arg: Arg)
    requires conv.Integer? && Writable(conv) && Accepts(conv, arg)
    requires !(flags.zero && flags.right)
    ensures var v := ReadInt(Piece(conv, width, flags, arg), conv.base);
            if conv.sign && conv.base == 10 then ConvertsTo(conv.size, arg.n, v) else v == arg.n
  {
    hide ReadInt, Rendered, Missing, ConvertsTo;
    RoundTrip(Fetched(conv.size, arg.n), conv.base, conv.sign, width, flags, conv.upper);
    if conv.sign && conv.base == 10 {
      Narrowed(conv.size, arg.n);
    }
  }
}
