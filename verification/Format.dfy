/** format_string_loop and the functions of sdk/librv/printf.c around it: the text that a
    format and its arguments stand for, and its way into a buffer or to a function. */
module Format {
  import opened Arch
  import opened Words
  import opened Output
  import opened IntegerText
  import opened Directives
  import opened Completeness
  import C99

  /** The text of one conversion with the arguments it leaves, unless an argument is missing
      or of the wrong kind. */
  datatype Conversion = Wrong | Right(text: seq<char>, k: nat)

  /** The text of a format, where the format and its arguments have one. */
  datatype Rendering = NoText | SomeText(text: seq<char>)

  // ------------------------------------------------------------ specifications

  predicate IsInteger(conv: char) {
    conv == 'd' || conv == 'i' || conv == 'u' || conv == 'o' || conv == 'x' || conv == 'X' || conv == 'b'
  }

  /** The range of the type that an integer conversion takes its argument at. */
  function Range(rv64: bool, f: Flags): (m: nat)
    ensures 0 < m <= TWO64
  {
    if f.longLong then TWO64
    else if f.long then (if rv64 then TWO64 else TWO32)
    else if f.chr then 0x100
    else if f.short then 0x1_0000
    else TWO32
  }

  function Value(rv64: bool, conv: char, f: Flags, v: int): int {
    if TakesSigned(conv) then SignedArg(v, Range(rv64, f)) else Wrap(Range(rv64, f), v)
  }

  /** ABS_FOR_PRINTING: negation in 64-bit two's complement. */
  function AbsForPrinting(value: int): nat {
    Wrap(TWO64, if value > 0 then value else SignedArg(-value, TWO64))
  }

  function IntegerOutput(rv64: bool, conv: char, d: Directive, v: int): seq<char>
    requires d.Directive?
  {
    var value := Value(rv64, conv, d.f, v);
    IntegerCode(C99.Magnitude(value), value < 0, Base(conv), d.precision, d.width, Settled(conv, d.f))
  }

  function CharOutput(c: char, width: nat, f: Flags): seq<char> {
    var pad := Repeat(' ', width - 1);
    if f.left then [c] + pad else pad + [c]
  }

  function StringOutput(t: CString, width: nat, precision: nat, f: Flags): seq<char> {
    var shown := if f.precision then t[..Min(|t|, precision)] else t;
    var counted := if f.precision then |shown| else Min(|t|, INT_MAX);
    var pad := Repeat(' ', width - counted);
    if f.left then shown + pad else pad + shown
  }

  /** Two digits for each byte of a pointer, and the prefix. */
  function PointerWidth(rv64: bool): nat {
    if rv64 then 18 else 10
  }

  function PointerOutput(rv64: bool, p: nat, precision: nat, f: Flags): seq<char> {
    if p == 0 then OutRevText(")lin(", PointerWidth(rv64), f.left, true)
    else IntegerCode(p, false, 16, precision, PointerWidth(rv64), f.(zeropad := true, pointer := true))
  }

  function AddressOf(rv64: bool, p: nat): nat {
    Wrap(if rv64 then TWO64 else TWO32, p)
  }

  /** What the argument k contributes under a specifier. */
  function Convert(rv64: bool, conv: char, d: Directive, args: seq<Arg>): Conversion
    requires d.Directive?
  {
    if conv == '%' || !(IsInteger(conv) || conv == 'c' || conv == 's' || conv == 'p') then
      Right([conv], d.k)
    else if d.k >= |args| then Wrong
    else
      match args[d.k]
      case Num(v) =>
        if IsInteger(conv) then Right(IntegerOutput(rv64, conv, d, v), d.k + 1)
        else if conv == 'c' then Right(CharOutput(Wrap(0x100, v) as char, d.width, d.f), d.k + 1)
        else Wrong
      case Text(t) =>
        if conv == 's' then Right(StringOutput(t, d.width, d.precision, d.f), d.k + 1) else Wrong
      case Address(p) =>
        var q := AddressOf(rv64, p);
        if conv == 'p' then Right(PointerOutput(rv64, q, d.precision, d.f), d.k + 1)
        else if conv == 's' && q == 0 then Right(OutRevText(")llun(", d.width, d.f.left, d.f.zeropad), d.k + 1)
        else Wrong
  }

  function Prepend(t: seq<char>, r: Rendering): Rendering {
    match r
    case NoText => NoText
    case SomeText(u) => SomeText(t + u)
  }

  /** The text from position i of a format and argument k on. It has none if an argument is
      missing or of the wrong kind, or if the code runs past the terminator. */
  function Render(rv64: bool, s: CString, i: nat, args: seq<Arg>, k: nat): Rendering
    requires i <= |s|
    decreases |s| - i
  {
    if i == |s| then SomeText([])
    else if s[i] != '%' then Prepend([s[i]], Render(rv64, s, i + 1, args, k))
    else
      match Parse(rv64, s, i, args, k)
      case Ended => SomeText([])
      case Unspecified => NoText
      case Directive(at, k', f, width, precision) =>
        if at == |s| then NoText
        else
          match Convert(rv64, s[at], Directive(at, k', f, width, precision), args)
          case Wrong => NoText
          case Right(t, k'') => Prepend(t, Render(rv64, s, at + 1, args, k''))
  }

  // ---------------------------------------------------- formats that have a text

  function Takes(conv: char): nat {
    if IsInteger(conv) || conv == 'c' || conv == 's' || conv == 'p' then 1 else 0
  }

  /** Argument k is of the kind that a specifier takes. */
  predicate Accepts(rv64: bool, conv: char, args: seq<Arg>, k: nat) {
    Takes(conv) == 1 ==>
      && k < |args|
      && match args[k]
         case Num(_) => IsInteger(conv) || conv == 'c'
         case Text(_) => conv == 's'
         case Address(p) => conv == 'p' || (conv == 's' && AddressOf(rv64, p) == 0)
  }

  /** There is an argument of the right kind for every star and specifier from i on. */
  predicate Supplied(rv64: bool, s: CString, i: nat, args: seq<Arg>, k: nat)
    requires i <= |s|
    decreases |s| - i
  {
    if i == |s| then true
    else if s[i] != '%' then Supplied(rv64, s, i + 1, args, k)
    else
      var at, n := SpecifierAt(s, i), k + Stars(s, i);
      && Nums(args, k, Stars(s, i))
      && (at < |s| ==> Accepts(rv64, s[at], args, n) && Supplied(rv64, s, at + 1, args, n + Takes(s[at])))
  }

  lemma ConvertIs(rv64: bool, conv: char, d: Directive, args: seq<Arg>)
    requires d.Directive?
    ensures var c := Convert(rv64, conv, d, args);
            && (c.Right? <==> Accepts(rv64, conv, args, d.k))
            && (c.Right? ==> c.k == d.k + Takes(conv))
  {
    hide IntegerOutput, CharOutput, StringOutput, PointerOutput, OutRevText, AddressOf;
  }

  /** The loop steps over the terminator: it takes it for a specifier and goes on behind it. */
  predicate RunsPast(rv64: bool, s: CString, i: nat, args: seq<Arg>, k: nat)
    requires i <= |s|
    decreases |s| - i
  {
    if i == |s| then false
    else if s[i] != '%' then RunsPast(rv64, s, i + 1, args, k)
    else
      match Parse(rv64, s, i, args, k)
      case Ended => false
      case Unspecified => false
      case Directive(at, k', f, width, precision) =>
        if at == |s| then true
        else
          match Convert(rv64, s[at], Directive(at, k', f, width, precision), args)
          case Wrong => false
          case Right(_, k'') => RunsPast(rv64, s, at + 1, args, k'')
  }

  /** With the arguments that it takes, a format is read past its terminator if and only if
      it is cut off inside a directive, after a flag or a digit. */
  lemma {:induction false} RunsPastIff(rv64: bool, s: CString, i: nat, args: seq<Arg>, k: nat)
    requires i <= |s| && Supplied(rv64, s, i, args, k)
    ensures RunsPast(rv64, s, i, args, k) <==> !Complete(s, i)
    decreases |s| - i
  {
    hide Parse, Convert, Accepts, EndsInside, SpecifierAt, Stars, Nums, Takes;
    if i == |s| {
    } else if s[i] != '%' {
      RunsPastIff(rv64, s, i + 1, args, k);
    } else {
      var d := Parse(rv64, s, i, args, k);
      ParseIs(rv64, s, i, args, k);
      CutOff(rv64, s, i, args, k);
      if d.Directive? && d.at < |s| {
        ConvertIs(rv64, s[d.at], d, args);
        RunsPastIff(rv64, s, d.at + 1, args, d.k + Takes(s[d.at]));
      }
    }
  }

  /** A format has a text exactly when it is complete and has its arguments. */
  lemma {:induction false} RendersIff(rv64: bool, s: CString, i: nat, args: seq<Arg>, k: nat)
    requires i <= |s|
    ensures Render(rv64, s, i, args, k).SomeText? <==> Complete(s, i) && Supplied(rv64, s, i, args, k)
    decreases |s| - i
  {
    hide Parse, Convert, Accepts, EndsInside, SpecifierAt, Stars, Nums, Takes;
    if i == |s| {
    } else if s[i] != '%' {
      RendersIff(rv64, s, i + 1, args, k);
    } else {
      var d := Parse(rv64, s, i, args, k);
      ParseIs(rv64, s, i, args, k);
      if !d.Unspecified? {
        CutOff(rv64, s, i, args, k);
      }
      if d.Directive? && d.at < |s| {
        ConvertIs(rv64, s[d.at], d, args);
        RendersIff(rv64, s, d.at + 1, args, d.k + Takes(s[d.at]));
      }
    }
  }

  /** One that fails: in "%5" the terminator at 2 is taken for the specifier. */
  lemma PercentFive(rv64: bool)
    ensures Parse(rv64, "%5", 0, [], 0) == Directive(2, 0, NO_FLAGS, 5, 0)
    ensures RunsPast(rv64, "%5", 0, [], 0) && !Complete("%5", 0) && Supplied(rv64, "%5", 0, [], 0)
  {
    RunsPastIff(rv64, "%5", 0, [], 0);
  }

  lemma TurnedNone()
    ensures Reverse("") == ""
  {
  }

  lemma TurnedMore(s: seq<char>, t: seq<char>, r: seq<char>, u: seq<char>)
    requires |s| > 0 && s[1..] == t && Reverse(t) == r && u == r + [s[0]]
    ensures Reverse(s) == u
  {
  }

  lemma Turned()
    ensures Reverse(")llun(") == "(null)" && Reverse(")lin(") == "(nil)"
  {
    hide Reverse;
    TurnedNone();
    TurnedMore("(", "", "", "(");
    TurnedMore("n(", "(", "(", "(n");
    TurnedMore("un(", "n(", "(n", "(nu");
    TurnedMore("lun(", "un(", "(nu", "(nul");
    TurnedMore("llun(", "lun(", "(nul", "(null");
    TurnedMore(")llun(", "llun(", "(null", "(null)");
    TurnedMore("in(", "n(", "(n", "(ni");
    TurnedMore("lin(", "in(", "(ni", "(nil");
    TurnedMore(")lin(", "lin(", "(nil", "(nil)");
  }

  /** A null pointer: s prints (null) in its field, which the 0 flag leaves out, and p prints
      (nil), filled up only to the left. */
  lemma NullTexts(rv64: bool, d: Directive, args: seq<Arg>)
    requires d.Directive? && d.k < |args| && args[d.k] == Address(0)
    ensures var pad := Repeat(' ', d.width - 6);
            Convert(rv64, 's', d, args)
            == Right(if d.f.left then "(null)" + pad else if d.f.zeropad then "(null)" else pad + "(null)", d.k + 1)
    ensures var pad := Repeat(' ', (if rv64 then 18 else 10) - 5);
            Convert(rv64, 'p', d, args) == Right(if d.f.left then "(nil)" + pad else "(nil)", d.k + 1)
  {
    hide Reverse, IntegerCode, Repeat;
    Turned();
    WrapSmall(if rv64 then TWO64 else TWO32, 0);
  }

  // ------------------------------------------------------------------- methods

  /** strnlen_s_. */
  method Strnlen(t: CString, maxsize: nat) returns (l: nat)
    ensures l == Min(|t|, maxsize)
  {
    l := 0;
    var left := maxsize;
    while At(t, l) != '\0' && left > 0
      invariant l <= |t| && l + left == maxsize
      decreases |t| - l
    {
      left := left - 1;
      l := l + 1;
    }
  }

  /** The case of the specifier c. */
  method PrintChar(g: Gadget, c: char, width: nat, f: Flags)
    requires g.Valid()
    modifies g, g.buffer
    ensures g.Valid() && g.out == old(g.out) + CharOutput(c, width, f)
  {
    hide Deposit, Accepted, Repeat, Gadget.Valid;
    if !f.left {
      PadTo(g, 1, width);
    }
    g.Put(c);
    if f.left {
      PadTo(g, 1, width);
    }
  }

  /** The output loop of the specifier s. */
  method PutString(g: Gadget, t: CString, precision: nat, f: Flags)
    requires g.Valid() && precision < UINT
    modifies g, g.buffer
    ensures g.Valid() && g.out == old(g.out) + (if f.precision then t[..Min(|t|, precision)] else t)
  {
    hide Deposit, Accepted, Gadget.Valid;
    var p, left := 0, precision;
    while At(t, p) != '\0' && (!f.precision || left > 0)
      invariant p <= |t| && 0 <= left < UINT
      invariant g.Valid() && g.out == old(g.out) + t[..p]
      invariant f.precision ==> p + left == precision
      decreases |t| - p
    {
      g.Put(t[p]);
      assert t[..p + 1] == t[..p] + [t[p]];
      p := p + 1;
      left := (left - 1) % UINT;
    }
    assert t[..|t|] == t;
    assert !f.precision ==> p == |t|;
    assert f.precision ==> p == Min(|t|, precision);
  }

  /** The case of the specifier s. */
  method PrintString(g: Gadget, t: CString, width: nat, precision: nat, f: Flags)
    requires g.Valid() && precision < UINT && (!f.precision ==> precision == 0)
    modifies g, g.buffer
    ensures g.Valid() && g.out == old(g.out) + StringOutput(t, width, precision, f)
  {
    hide Deposit, Accepted, Repeat, Gadget.Valid;
    var l := Strnlen(t, if precision > 0 then precision else INT_MAX);
    if f.precision {
      l := if l < precision then l else precision;
    }
    if !f.left {
      PadTo(g, l, width);
    }
    PutString(g, t, precision, f);
    if f.left {
      PadTo(g, l, width);
    }
  }

  /** Magnitudes never wrap: the least 64-bit value comes out as 2 to the 63rd. */
  lemma AbsIsMagnitude(value: int)
    requires -0x8000_0000_0000_0000 <= value < TWO64
    ensures AbsForPrinting(value) == C99.Magnitude(value)
  {
  }

  lemma ValueBounds(rv64: bool, conv: char, f: Flags, v: int)
    ensures var value := Value(rv64, conv, f, v);
            if TakesSigned(conv) then -0x8000_0000_0000_0000 <= value < 0x8000_0000_0000_0000 else 0 <= value < TWO64
  {
  }

  /** What the integer specifiers make of the base and the flags. */
  method Settle(conv: char, flags: Flags) returns (base: nat, signed: bool, f: Flags)
    requires IsInteger(conv)
    ensures base == Base(conv) && signed == TakesSigned(conv) && f == Settled(conv, flags)
  {
    var hash, upper, zeropad, plus, space := flags.hash, flags.upper, flags.zeropad, flags.plus, flags.space;
    signed := conv == 'd' || conv == 'i';
    if conv == 'x' || conv == 'X' {
      base := 16;
    } else if conv == 'o' {
      base := 8;
    } else if conv == 'b' {
      base := 2;
    } else {
      base := 10;
      hash := false;
    }
    if conv == 'X' {
      upper := true;
    }
    if flags.precision {
      zeropad := false;
    }
    if !signed {
      plus, space := false, false;
    }
    f := flags.(hash := hash, upper := upper, zeropad := zeropad, plus := plus, space := space);
  }

  /** The cases of the integer specifiers. */
  method PrintIntegerConversion(g: Gadget, rv64: bool, conv: char, d: Directive, v: int)
    requires g.Valid() && IsInteger(conv) && d.Directive? && d.width < UINT
    modifies g, g.buffer
    ensures g.Valid() && g.out == old(g.out) + IntegerOutput(rv64, conv, d, v)
  {
    hide Deposit, Accepted, Gadget.Valid, IntegerCode, Value, AbsForPrinting, Settled;
    var base, signed, f := Settle(conv, d.f);
    var value := Value(rv64, conv, d.f, v);
    ValueBounds(rv64, conv, d.f, v);
    AbsIsMagnitude(value);
    if signed {
      PrintInteger(g, AbsForPrinting(value), value < 0, base, d.precision, d.width, f);
    } else {
      PrintInteger(g, value, false, base, d.precision, d.width, f);
    }
  }

  /** The case of the specifier p. */
  method PrintPointer(g: Gadget, rv64: bool, p: nat, precision: nat, flags: Flags)
    requires g.Valid()
    modifies g, g.buffer
    ensures g.Valid() && g.out == old(g.out) + PointerOutput(rv64, p, precision, flags)
  {
    hide Deposit, Accepted, Gadget.Valid, IntegerCode, OutRevText;
    var width := if rv64 then 18 else 10;
    var f := flags.(zeropad := true, pointer := true);
    if p == 0 {
      OutRev(g, ")lin(", width, f);
    } else {
      PrintInteger(g, p, false, 16, precision, width, f);
    }
  }

  /** The switch of format_string_loop over the specifier. */
  method PrintConversion(g: Gadget, rv64: bool, conv: char, d: Directive, args: seq<Arg>) returns (k: nat)
    requires g.Valid() && d.Directive? && d.width < UINT && d.precision < UINT && (!d.f.precision ==> d.precision == 0)
    requires !Convert(rv64, conv, d, args).Wrong?
    modifies g, g.buffer
    ensures g.Valid() && Convert(rv64, conv, d, args).Right?
    ensures k == Convert(rv64, conv, d, args).k && g.out == old(g.out) + Convert(rv64, conv, d, args).text
  {
    hide Deposit, Accepted, Gadget.Valid, IntegerOutput, CharOutput, StringOutput, PointerOutput, OutRevText, AddressOf;
    if IsInteger(conv) {
      PrintIntegerConversion(g, rv64, conv, d, args[d.k].v);
    } else if conv == 'c' {
      PrintChar(g, Wrap(0x100, args[d.k].v) as char, d.width, d.f);
    } else if conv == 's' {
      if args[d.k].Address? {
        OutRev(g, ")llun(", d.width, d.f);
      } else {
        PrintString(g, args[d.k].s, d.width, d.precision, d.f);
      }
    } else if conv == 'p' {
      PrintPointer(g, rv64, AddressOf(rv64, args[d.k].p), d.precision, d.f);
    } else {
      g.Put(conv);
      return d.k;
    }
    k := d.k + 1;
  }

  /** What is still to come after a prefix of the output. */
  predicate Remaining(all: Rendering, done: seq<char>, rest: Rendering) {
    rest.SomeText? && all == SomeText(done + rest.text)
  }

  lemma AfterCharacter(rv64: bool, s: CString, i: nat, args: seq<Arg>, k: nat, all: Rendering, done: seq<char>)
    requires i < |s| && s[i] != '%' && Remaining(all, done, Render(rv64, s, i, args, k))
    ensures Remaining(all, done + [s[i]], Render(rv64, s, i + 1, args, k))
  {
    hide Parse, Convert;
    assert done + ([s[i]] + Render(rv64, s, i + 1, args, k).text)
        == done + [s[i]] + Render(rv64, s, i + 1, args, k).text;
  }

  lemma AfterDirective(rv64: bool, s: CString, i: nat, args: seq<Arg>, k: nat, all: Rendering, done: seq<char>)
    requires i < |s| && s[i] == '%' && Remaining(all, done, Render(rv64, s, i, args, k))
    ensures var d := Parse(rv64, s, i, args, k);
            && !d.Unspecified?
            && (d.Ended? ==> all == SomeText(done))
            && (d.Directive? ==>
                  && d.at < |s| && Convert(rv64, s[d.at], d, args).Right?
                  && Remaining(all, done + Convert(rv64, s[d.at], d, args).text,
                               Render(rv64, s, d.at + 1, args, Convert(rv64, s[d.at], d, args).k)))
  {
    hide Parse, Convert;
    var d := Parse(rv64, s, i, args, k);
    if d.Directive? {
      var c := Convert(rv64, s[d.at], d, args);
      var rest := Render(rv64, s, d.at + 1, args, c.k);
      assert done + (c.text + rest.text) == done + c.text + rest.text;
    }
  }

  lemma Unstarted(all: Rendering)
    requires all.SomeText?
    ensures Remaining(all, [], all)
  {
    assert [] + all.text == all.text;
  }

  lemma Finished(rv64: bool, s: CString, args: seq<Arg>, k: nat, all: Rendering, done: seq<char>)
    requires Remaining(all, done, Render(rv64, s, |s|, args, k))
    ensures all == SomeText(done)
  {
  }

  /** format_string_loop. Its position only grows, and never passes the terminator. */
  method FormatStringLoop(g: Gadget, rv64: bool, s: CString, args: seq<Arg>)
    requires g.Valid() && Complete(s, 0) && Supplied(rv64, s, 0, args, 0)
    modifies g, g.buffer
    ensures Render(rv64, s, 0, args, 0).SomeText?
    ensures g.Valid() && g.out == old(g.out) + Render(rv64, s, 0, args, 0).text
  {
    hide Deposit, Accepted, Gadget.Valid, Parse, Convert, Remaining, Render, Complete, Supplied;
    var i, k := 0, 0;
    RendersIff(rv64, s, 0, args, 0);
    ghost var done, all := [], Render(rv64, s, 0, args, 0);
    Unstarted(all);
    while At(s, i) != '\0'
      invariant i <= |s| && g.Valid() && g.out == old(g.out) + done
      invariant Remaining(all, done, Render(rv64, s, i, args, k))
      decreases |s| - i
    {
      if At(s, i) != '%' {
        AfterCharacter(rv64, s, i, args, k, all, done);
        g.Put(s[i]);
        done := done + [s[i]];
        i := i + 1;
      } else {
        AfterDirective(rv64, s, i, args, k, all, done);
        var d := ParseDirective(rv64, s, i, args, k);
        if d.Ended? {
          return;
        }
        done := done + Convert(rv64, s[d.at], d, args).text;
        k := PrintConversion(g, rv64, s[d.at], d, args);
        i := d.at + 1;
      }
    }
    Finished(rv64, s, args, k, all, done);
  }

  // ---------------------------------------------------------------- vsnprintf

  /** A buffer cut to a capacity: the text, or as much of it as leaves room for the
      terminator; the terminator; and what the buffer held beyond. */
  function Truncated(before: seq<char>, text: seq<char>, capacity: nat): (r: seq<char>)
    requires 0 < capacity <= |before|
    ensures |r| == |before|
  {
    var n := Min(|text|, capacity - 1);
    text[..n] + ['\0'] + before[n + 1..]
  }

  lemma TerminatedText(before: seq<char>, text: seq<char>, capacity: nat)
    requires 0 < capacity <= |before| && |text| < UINT
    ensures Deposit(before, text, capacity)[Min(|text|, capacity - 1) := '\0'] == Truncated(before, text, capacity)
  {
    DepositIsPrefix(before, text, capacity);
  }

  lemma {:induction false} NothingKept(before: seq<char>, text: seq<char>)
    ensures Deposit(before, text, 0) == before
    decreases |text|
  {
    if |text| == 0 {
    } else {
      NothingKept(before, text[..|text| - 1]);
    }
  }

  /** vsnprintf_impl on a fresh gadget. */
  method VsnprintfImpl(g: Gadget, rv64: bool, s: CString, args: seq<Arg>) returns (r: int)
    requires g.Valid() && g.out == [] && Complete(s, 0) && Supplied(rv64, s, 0, args, 0)
    modifies g, g.buffer
    ensures Render(rv64, s, 0, args, 0).SomeText?
    ensures var text := Render(rv64, s, 0, args, 0).text;
            && r == Signed(UINT, |text| % UINT)
            && (g.hasFunction ==> g.sent == Accepted(text, g.maxChars))
            && (g.buffer != null && !g.hasFunction ==>
                  g.buffer[..] == if g.maxChars == 0 then g.before
                                  else Deposit(g.before, text, g.maxChars)[Min(|text| % UINT, g.maxChars - 1) := '\0'])
  {
    hide Deposit, Accepted, Render, Complete, Supplied;
    FormatStringLoop(g, rv64, s, args);
    assert g.out == Render(rv64, s, 0, args, 0).text;
    if g.buffer != null && g.maxChars == 0 {
      NothingKept(g.before, g.out);
    }
    ghost var filled := if g.buffer != null then g.buffer[..] else [];
    g.Terminate();
    r := Signed(UINT, g.pos);
  }

  /** vsnprintf: whatever the capacity n, the result is the length of the whole text, and the
      buffer holds the text as far as it fits, terminated, and nothing else is written. */
  method Vsnprintf(buffer: array?<char>, n: nat, rv64: bool, s: CString, args: seq<Arg>) returns (r: int)
    requires buffer != null ==> n <= buffer.Length
    requires Complete(s, 0) && Supplied(rv64, s, 0, args, 0)
    modifies buffer
    ensures Render(rv64, s, 0, args, 0).SomeText?
    ensures var text := Render(rv64, s, 0, args, 0).text;
            && r == Signed(UINT, |text| % UINT)
            && (|text| <= INT_MAX ==> r == |text|)
            && (buffer != null && n == 0 ==> buffer[..] == old(buffer[..]))
            && (buffer != null && n > 0 && |text| < UINT ==>
                  buffer[..] == Truncated(old(buffer[..]), text, Min(n, INT_MAX)))
  {
    hide Deposit, Accepted, Render, Truncated, Complete, Supplied;
    var g := new Gadget.OnBuffer(buffer, n);
    r := VsnprintfImpl(g, rv64, s, args);
    ghost var text := Render(rv64, s, 0, args, 0).text;
    if buffer != null && n > 0 && |text| < UINT {
      TerminatedText(old(buffer[..]), text, Min(n, INT_MAX));
    }
  }

  /** vprintf: the function receives the text, up to INT_MAX characters of it. */
  method Vprintf(rv64: bool, s: CString, args: seq<Arg>) returns (r: int, sent: seq<char>)
    requires Complete(s, 0) && Supplied(rv64, s, 0, args, 0)
    ensures Render(rv64, s, 0, args, 0).SomeText?
    ensures var text := Render(rv64, s, 0, args, 0).text;
            && r == Signed(UINT, |text| % UINT)
            && (|text| < UINT ==> sent == text[..Min(|text|, INT_MAX)])
  {
    hide Deposit, Accepted, Render, Complete, Supplied;
    var g := new Gadget.OnFunction();
    r := VsnprintfImpl(g, rv64, s, args);
    sent := g.sent;
    ghost var text := Render(rv64, s, 0, args, 0).text;
    if |text| < UINT {
      AcceptedIsPrefix(text, INT_MAX);
    }
  }

  /** Section 7.19.6.5 of ISO/IEC 9899:1999: nothing for n zero, else the first n - 1
      characters at most, and a null character after them. */
  function Snprintf(before: seq<char>, text: seq<char>, n: nat): seq<char>
    requires n <= |before|
  {
    if n == 0 then before else Truncated(before, text, n)
  }

  /** Cutting capacities above INT_MAX shows in one case: a text of exactly INT_MAX
      characters then loses its last one to the terminator. */
  lemma CapacityCut(before: seq<char>, text: seq<char>, n: nat)
    requires 0 < n <= |before| && |text| <= INT_MAX
    ensures Truncated(before, text, Min(n, INT_MAX)) == Snprintf(before, text, n)
            <==> !(|text| == INT_MAX < n && (text[INT_MAX - 1] != '\0' || before[INT_MAX] != '\0'))
  {
    var cut, whole := Truncated(before, text, Min(n, INT_MAX)), Snprintf(before, text, n);
    if |text| == INT_MAX < n {
      assert cut[INT_MAX - 1] == '\0' && cut[INT_MAX] == before[INT_MAX];
      assert whole[INT_MAX - 1] == text[INT_MAX - 1] && whole[INT_MAX] == '\0';
    }
  }

  /** The one case: 2^31 - 1 letters in a buffer with room for one more than them. */
  lemma LastLetterLost()
    ensures var before, text := seq(0x8000_0000, _ => 'x'), seq(0x7FFF_FFFF, _ => 'a');
            && Snprintf(before, text, 0x8000_0000) == text + ['\0']
            && Truncated(before, text, Min(0x8000_0000, INT_MAX)) == text[..0x7FFF_FFFE] + ['\0'] + ['x']
            && Truncated(before, text, Min(0x8000_0000, INT_MAX)) != Snprintf(before, text, 0x8000_0000)
  {
    var before, text := seq(INT_MAX + 1, _ => 'x'), seq(INT_MAX, _ => 'a');
    assert text[..INT_MAX] == text && before[INT_MAX + 1..] == [] && before[INT_MAX..] == ['x'];
    assert Snprintf(before, text, INT_MAX + 1) == text + ['\0'];
    CapacityCut(before, text, INT_MAX + 1);
  }
}
