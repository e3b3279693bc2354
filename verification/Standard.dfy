/** Whole formats against section 7.19.6.1 of ISO/IEC 9899:1999: exactly when the text of
    sdk/librv/printf.c is the standard's. */
module Standard {
  import opened Arch
  import opened Words
  import opened Output
  import opened IntegerText
  import opened Directives
  import opened Grammar
  import opened Format
  import opened Fprintf
  import opened DirectiveText
  import opened ReadBack
  import C99

  // ----------------------------------------------------------------- what must hold

  /** The blanks that n characters get in a field. */
  function Blanks(width: nat, n: nat): nat {
    if width <= n then 0 else width - n
  }

  /** Padding makes up for the end of a string that a precision modulo 2^32 cuts off: the
      characters lost are blanks, and come back as blanks. */
  predicate BlanksMakeUp(t: CString, width: nat, shown: nat, left: bool) {
    && shown < |t| <= width < UINT
    && if left then t[shown..] == Repeat(' ', |t| - shown) else t == Repeat(' ', |t| - shown) + t[..shown]
  }

  /** A width below 2^32, with a precision below 2^32 or one that even modulo 2^32 leaves the
      string whole, or without one if the string is counted, up to INT_MAX; otherwise a width
      for which the count and the modulus make no difference in the number of blanks, or a
      precision whose cut they make up for. */
  predicate StringFits(t: CString, width: nat, precision: nat, f: Flags) {
    if !f.precision then
      if |t| <= INT_MAX then width < UINT else Blanks(width % UINT, INT_MAX) == Blanks(width, |t|)
    else if precision < UINT || |t| <= precision % UINT then width < UINT
    else BlanksMakeUp(t, width, precision % UINT, f.left)
  }

  /** An integer has numbers below 2^32 and fits the code's buffer (C99.FitsBuffer), a character
      has a width below 2^32, a string fits, and a pointer has no width beyond its own. */
  predicate ConversionFits(rv64: bool, conv: char, d: Spec, args: seq<Arg>)
    requires d.Spec?
  {
    d.k < |args| ==>
      match args[d.k]
      case Num(v) =>
        (C99.IsConversion(conv) || conv == 'c' ==> d.width < UINT)
        && (C99.IsConversion(conv) && TypeRange(rv64, d.length) > 0 ==>
              d.precision < UINT
              && C99.FitsBuffer(conv, IntegerValue(rv64, conv, d.length, v), d.precision, d.width, d.f))
      case Text(t) => conv == 's' ==> StringFits(t, d.width, d.precision, d.f)
      case Address(p) => conv == 'p' ==> d.width <= |PointerOutput(rv64, AddressOf(rv64, p), 0, d.f)|
  }

  /** Every conversion of a format fits, its numbers taken as they are written. */
  predicate AllFit(rv64: bool, s: CString, i: nat, args: seq<Arg>, k: nat)
    requires i <= |s|
    decreases |s| - i
  {
    if i == |s| then true
    else if s[i] != '%' then AllFit(rv64, s, i + 1, args, k)
    else
      match SpecAt(s, i, args, k)
      case NoSpec => true
      case Spec(at, k', f, width, precision, length) =>
        var d := Spec(at, k', f, width, precision, length);
        && ConversionFits(rv64, s[at], d, args)
        && match ConvertStandard(rv64, s[at], at == i + 1, d, args)
           case Wrong => true
           case Right(_, k'') => AllFit(rv64, s, at + 1, args, k'')
  }

  /** No specifier n, which the shipped configuration leaves out. */
  predicate NoWriteback(rv64: bool, s: CString, i: nat, args: seq<Arg>, k: nat)
    requires i <= |s|
    decreases |s| - i
  {
    if i == |s| then true
    else if s[i] != '%' then NoWriteback(rv64, s, i + 1, args, k)
    else
      match SpecAt(s, i, args, k)
      case NoSpec => true
      case Spec(at, k', f, width, precision, length) =>
        && s[at] != 'n'
        && match ConvertStandard(rv64, s[at], at == i + 1, Spec(at, k', f, width, precision, length), args)
           case Wrong => true
           case Right(_, k'') => NoWriteback(rv64, s, at + 1, args, k'')
  }

  /** Every string argument has a length that an int can count. */
  predicate Countable(args: seq<Arg>) {
    forall k :: 0 <= k < |args| && args[k].Text? ==> |args[k].s| <= INT_MAX
  }

  // ---------------------------------------------------------------- one conversion

  lemma CharConformsIff(v: int, width: nat, f: Flags, g: Flags)
    requires f.left == g.left
    ensures var out, text := CharOutput(Wrap(0x100, v) as char, width % UINT, f), CharStandard(v, width, g);
            && (out == text <==> width < UINT) && |out| <= |text|
  {
    if width >= UINT {
      assert |CharOutput(Wrap(0x100, v) as char, width % UINT, f)| < |CharStandard(v, width, g)|;
    }
  }

  lemma {:induction false} RepeatAdd(c: char, m: nat, n: nat)
    ensures Repeat(c, m) + Repeat(c, n) == Repeat(c, m + n)
  {
    if n == 0 {
    } else {
      RepeatAdd(c, m, n - 1);
    }
  }

  /** What the code writes for a string, its numbers cut to 32 bits. */
  function CutString(t: CString, width: nat, precision: nat, f: Flags): seq<char> {
    StringOutput(t, width % UINT, precision % UINT, f)
  }

  lemma PrecisionWithin(t: CString, width: nat, precision: nat, f: Flags)
    requires f.precision && (precision < UINT || |t| <= precision % UINT)
    ensures CutString(t, width, precision, f) == StringStandard(t, width, precision, f) <==> width < UINT
    ensures |CutString(t, width, precision, f)| <= |StringStandard(t, width, precision, f)|
  {
    hide Repeat;
    assert t[..|t|] == t;
    if width >= UINT {
      assert |CutString(t, width, precision, f)| < |StringStandard(t, width, precision, f)|;
    }
  }

  lemma NoBlanks(n: int)
    requires n <= 0
    ensures Repeat(' ', n) == []
  {
  }

  lemma LengthWithin(t: CString, width: nat, precision: nat, f: Flags)
    requires !f.precision
    ensures CutString(t, width, precision, f) == StringStandard(t, width, precision, f)
            <==> StringFits(t, width, precision, f)
    ensures |t| <= INT_MAX ==> |CutString(t, width, precision, f)| <= |StringStandard(t, width, precision, f)|
  {
    hide Repeat, BlanksMakeUp;
    var a, b := width % UINT - Min(|t|, INT_MAX), width - |t|;
    if a <= 0 {
      NoBlanks(a);
    }
    if b <= 0 {
      NoBlanks(b);
    }
  }

  lemma CutShort(t: CString, width: nat, q: nat, left: bool)
    requires q < |t| && width < UINT
    ensures C99.InField(t[..q], width, left) == C99.InField(t, width, left) <==> BlanksMakeUp(t, width, q, left)
    ensures |C99.InField(t[..q], width, left)| <= |C99.InField(t, width, left)|
  {
    var out, text, n := C99.InField(t[..q], width, left), C99.InField(t, width, left), |t| - q;
    if width < |t| {
      assert |out| < |text|;
    } else {
      RepeatAdd(' ', n, width - |t|);
      RepeatAdd(' ', width - |t|, n);
      if left {
        assert out == t[..q] + Repeat(' ', n) + Repeat(' ', width - |t|);
        assert text == t[..q] + t[q..] + Repeat(' ', width - |t|);
        assert out[q..|t|] == Repeat(' ', n) && text[q..|t|] == t[q..];
      } else {
        assert out == Repeat(' ', width - |t|) + (Repeat(' ', n) + t[..q]);
        assert text == Repeat(' ', width - |t|) + t;
        assert out[width - |t|..] == Repeat(' ', n) + t[..q] && text[width - |t|..] == t;
      }
    }
  }

  lemma CutFields(t: CString, width: nat, precision: nat, f: Flags)
    requires f.precision && width < UINT && precision % UINT < |t| <= precision
    ensures CutString(t, width, precision, f) == C99.InField(t[..precision % UINT], width, f.left)
    ensures StringStandard(t, width, precision, f) == C99.InField(t, width, f.left)
  {
  }

  lemma CutBeyond(t: CString, width: nat, precision: nat, f: Flags)
    requires f.precision && UINT <= precision && precision % UINT < |t| && !(|t| <= width < UINT)
    ensures |CutString(t, width, precision, f)| < |StringStandard(t, width, precision, f)|
  {
    hide Repeat;
  }

  lemma NotWide(t: CString, width: nat, shown: nat, left: bool)
    requires !(|t| <= width < UINT)
    ensures !BlanksMakeUp(t, width, shown, left)
  {
  }

  /** A string of any length is the standard's exactly when it fits, and never longer if it is
      counted or has a precision. */
  lemma StringConformsIff(t: CString, width: nat, precision: nat, f: Flags)
    ensures CutString(t, width, precision, f) == StringStandard(t, width, precision, f)
            <==> StringFits(t, width, precision, f)
    ensures f.precision || |t| <= INT_MAX ==>
              |CutString(t, width, precision, f)| <= |StringStandard(t, width, precision, f)|
  {
    hide CutString, StringStandard, BlanksMakeUp;
    if !f.precision {
      LengthWithin(t, width, precision, f);
    } else if precision < UINT || |t| <= precision % UINT {
      PrecisionWithin(t, width, precision, f);
    } else if |t| <= width < UINT {
      CutShort(t, width, precision % UINT, f.left);
      CutFields(t, width, precision, f);
    } else {
      CutBeyond(t, width, precision, f);
      assert !BlanksMakeUp(t, width, precision % UINT, f.left) by {
        NotWide(t, width, precision % UINT, f.left);
      }
    }
  }

  lemma RangeOf(rv64: bool, length: seq<char>, f: Flags)
    requires Plain(f) && TypeRange(rv64, length) > 0
    ensures |length| <= 1 || length == ['l', 'l'] || length == ['h', 'h']
    ensures Range(rv64, f) == TWO32 && TypeRange(rv64, []) == TWO32
    ensures Range(rv64, f.(long := true, longLong := true)) == TWO64 == TypeRange(rv64, ['l', 'l'])
    ensures Range(rv64, f.(short := true, chr := true)) == 0x100 == TypeRange(rv64, ['h', 'h'])
    ensures Range(rv64, f.(long := true)) == TypeRange(rv64, ['l'])
    ensures Range(rv64, f.(short := true)) == TypeRange(rv64, ['h'])
    ensures length == ['t'] || length == ['z'] || length == ['j'] ==>
              Range(rv64, SizeFlags(rv64, length[0], f)) == TypeRange(rv64, length)
    ensures |length| == 1 ==> length[0] in "lhtzj"
  {
  }

  lemma LetterAgrees(rv64: bool, c: char, f: Flags)
    requires Plain(f) && TypeRange(rv64, [c]) > 0
    ensures Range(rv64, LengthFlags(rv64, [c], f)) == TypeRange(rv64, [c])
  {
    hide LengthFlags, SizeFlags, Range, TypeRange, Plain;
    RangeOf(rv64, [c], f);
    Lengths(rv64, f, c);
  }

  lemma RangeAgrees(rv64: bool, length: seq<char>, f: Flags)
    requires Plain(f) && TypeRange(rv64, length) > 0
    ensures Range(rv64, LengthFlags(rv64, length, f)) == TypeRange(rv64, length)
  {
    hide LengthFlags, SizeFlags, Range, TypeRange, Plain;
    RangeOf(rv64, length, f);
    if |length| == 1 {
      LetterAgrees(rv64, length[0], f);
      assert length == [length[0]];
    } else {
      Lengths(rv64, f, 'l');
      Lengths(rv64, f, 'h');
    }
  }

  lemma SettledAlike(conv: char, f: Flags, g: Flags)
    requires SameFlags(f, g)
    ensures SameFlags(Settled(conv, f), Settled(conv, g))
  {
  }

  lemma PartsAlike(buf: seq<char>, unpadded: nat, negative: bool, base: nat, precision: nat, width: nat,
                   f: Flags, g: Flags)
    requires SameFlags(f, g) && unpadded <= |buf|
    ensures PaddedNumber(buf, precision, width, f) == PaddedNumber(buf, precision, width, g)
    ensures Alternative(buf, unpadded, base, precision, width, f)
            == Alternative(buf, unpadded, base, precision, width, g)
    ensures WithSign(buf, negative, f) == WithSign(buf, negative, g)
    ensures ZeroWidth(negative, width, f) == ZeroWidth(negative, width, g)
  {
    hide Repeat, Prefixed, TakeBack, Fill, Append;
  }

  lemma FinalizedAlike(buf: seq<char>, negative: bool, base: nat, precision: nat, fieldWidth: nat, f: Flags, g: Flags)
    requires SameFlags(f, g)
    ensures Finalized(buf, negative, base, precision, fieldWidth, f)
            == Finalized(buf, negative, base, precision, fieldWidth, g)
    ensures ZeroWidth(negative, fieldWidth, f) == ZeroWidth(negative, fieldWidth, g)
  {
    hide PaddedNumber, Alternative, WithSign, ZeroWidth;
    PartsAlike(buf, 0, negative, base, precision, fieldWidth, f, g);
    var width := ZeroWidth(negative, fieldWidth, f);
    PartsAlike(buf, 0, negative, base, precision, width, f, g);
    var padded := PaddedNumber(buf, precision, width, f);
    var f', g' := if base == 8 && |padded| > |buf| then f.(hash := false) else f,
                  if base == 8 && |padded| > |buf| then g.(hash := false) else g;
    PartsAlike(padded, |buf|, negative, base, precision, width, f', g');
    PartsAlike(Alternative(padded, |buf|, base, precision, width, f'), 0, negative, base, precision, width, f, g);
  }

  lemma FirstAlike(v: nat, base: nat, f: Flags, g: Flags)
    requires 2 <= base <= 16 && SameFlags(f, g)
    ensures FirstDigits(v, base, f) == FirstDigits(v, base, g)
    ensures SameFlags(FirstFlags(v, base, f), FirstFlags(v, base, g))
  {
    hide RevDigits;
  }

  lemma IntegerCodeAlike(v: nat, negative: bool, base: nat, precision: nat, width: nat, f: Flags, g: Flags)
    requires 2 <= base <= 16 && SameFlags(f, g)
    ensures IntegerCode(v, negative, base, precision, width, f) == IntegerCode(v, negative, base, precision, width, g)
  {
    hide Finalized, ZeroWidth, OutRevText, FirstDigits, FirstFlags;
    FirstAlike(v, base, f, g);
    FinalizedAlike(FirstDigits(v, base, f), negative, base, precision, width,
                   FirstFlags(v, base, f), FirstFlags(v, base, g));
  }

  lemma CodeAlike(conv: char, value: int, precision: nat, width: nat, f: Flags, g: Flags)
    requires SameFlags(f, g)
    ensures C99.Code(conv, value, precision, width, f) == C99.Code(conv, value, precision, width, g)
  {
    hide IntegerCode, Settled, SameFlags;
    SettledAlike(conv, f, g);
    IntegerCodeAlike(C99.Magnitude(value), value < 0, Base(conv), precision, width, Settled(conv, f), Settled(conv, g));
  }

  lemma PointerAlike(rv64: bool, p: nat, f: Flags, g: Flags)
    requires SameFlags(f, g)
    ensures PointerOutput(rv64, p, 0, f) == PointerOutput(rv64, p, 0, g)
  {
    hide IntegerCode, OutRevText;
    IntegerCodeAlike(p, false, 16, 0, PointerWidth(rv64), f.(zeropad := true, pointer := true),
                     g.(zeropad := true, pointer := true));
  }

  lemma PlainProper(conv: char, value: int, precision: nat, f: Flags)
    requires Plain(f) && C99.IsConversion(conv) && (!f.precision ==> precision == 0)
    requires if TakesSigned(conv) then -0x8000_0000_0000_0000 <= value < 0x8000_0000_0000_0000 else 0 <= value < TWO64
    ensures C99.Proper(conv, value, precision, f)
  {
  }

  lemma IntegerConforms(rv64: bool, conv: char, d: Spec, v: int)
    requires d.Spec? && Plain(d.f) && (!d.f.precision ==> d.precision == 0)
    requires C99.IsConversion(conv) && TypeRange(rv64, d.length) > 0
    ensures var out := IntegerOutput(rv64, conv, Reading(rv64, d), v);
            var value := IntegerValue(rv64, conv, d.length, v);
            var text := C99.Converted(conv, value, d.precision, d.width, d.f);
            && (out == text <==> d.width < UINT && d.precision < UINT
                                 && C99.FitsBuffer(conv, value, d.precision, d.width, d.f))
            && |out| <= |text|
  {
    hide C99.Converted, C99.FitsBuffer, IntegerCode, LengthFlags, Settled, Plain;
    var value := IntegerValue(rv64, conv, d.length, v);
    RangeAgrees(rv64, d.length, d.f);
    ValueBounds(rv64, conv, LengthFlags(rv64, d.length, d.f), v);
    PlainProper(conv, value, d.precision, d.f);
    CodeAlike(conv, value, d.precision % UINT, d.width % UINT, LengthFlags(rv64, d.length, d.f), d.f);
    C99.WrittenConformance(conv, value, d.precision, d.width, d.f);
  }

  lemma PointerConforms(rv64: bool, d: Spec, p: nat)
    requires d.Spec? && !d.f.precision && d.precision == 0
    ensures var out := PointerOutput(rv64, AddressOf(rv64, p), d.precision % UINT, LengthFlags(rv64, d.length, d.f));
            var text := PointerStandard(rv64, p, d.width, d.f);
            && (out == text <==> d.width <= |PointerOutput(rv64, AddressOf(rv64, p), 0, d.f)|) && |out| <= |text|
  {
    hide PointerOutput, LengthFlags, SameFlags, AddressOf;
    PointerAlike(rv64, AddressOf(rv64, p), LengthFlags(rv64, d.length, d.f), d.f);
    var own := PointerOutput(rv64, AddressOf(rv64, p), 0, d.f);
    if d.width <= |own| {
      assert Repeat(' ', d.width - |own|) == [];
    }
  }

  lemma StringAlike(t: CString, width: nat, precision: nat, f: Flags, g: Flags)
    requires SameFlags(f, g)
    ensures StringOutput(t, width % UINT, precision % UINT, f) == CutString(t, width, precision, g)
  {
  }

  /** One conversion is the standard's exactly when it fits, and never longer, unless it is of
      a string beyond counting. */
  lemma ConversionConforms(rv64: bool, conv: char, next: bool, d: Spec, args: seq<Arg>)
    requires d.Spec? && Plain(d.f) && (!d.f.precision ==> d.precision == 0) && conv != 'n'
    requires ConvertStandard(rv64, conv, next, d, args).Right?
    ensures var c, e := Convert(rv64, conv, Reading(rv64, d), args), ConvertStandard(rv64, conv, next, d, args);
            && c.Right? && c.k == e.k
            && (c.text == e.text <==> ConversionFits(rv64, conv, d, args))
            && (Countable(args) ==> |c.text| <= |e.text|)
  {
    hide C99.Converted, C99.FitsBuffer, IntegerOutput, IntegerValue, CharStandard, StringStandard, CharOutput,
         StringOutput, StringFits, PointerOutput, PointerStandard, OutRevText, LengthFlags, TypeRange, CutString;
    if conv != '%' {
      match args[d.k]
      case Num(v) =>
        if C99.IsConversion(conv) {
          IntegerConforms(rv64, conv, d, v);
        } else {
          CharConformsIff(v, d.width, LengthFlags(rv64, d.length, d.f), d.f);
        }
      case Text(t) =>
        StringAlike(t, d.width, d.precision, LengthFlags(rv64, d.length, d.f), d.f);
        StringConformsIff(t, d.width, d.precision, d.f);
      case Address(p) => PointerConforms(rv64, d, p);
    }
  }

  // ----------------------------------------------------------------- whole formats

  /** Two texts made of a piece and a rest, neither longer than its counterpart, are the same
      only if both are. */
  lemma SamePieces(r: seq<char>, u: seq<char>, s: seq<char>, v: seq<char>)
    requires |r| <= |s| && |u| <= |v|
    ensures r + u == s + v <==> r == s && u == v
  {
    if r + u == s + v {
      assert |r + u| == |s + v|;
      assert r == (r + u)[..|r|] && s == (s + v)[..|s|];
      assert u == (r + u)[|r|..] && v == (s + v)[|s|..];
    }
  }

  lemma ReadingIs(rv64: bool, d: Spec)
    requires d.Spec?
    ensures Reading(rv64, d).at == d.at && Reading(rv64, d).k == d.k
  {
  }

  lemma NoDash(rv64: bool, conv: char, next: bool, d: Spec, args: seq<Arg>)
    requires d.Spec? && ConvertStandard(rv64, conv, next, d, args).Right?
    ensures conv != '-'
  {
  }

  /** Where the standard defines a text, the code has one, never longer, and it is the
      standard's if and only if all conversions fit. */
  lemma {:induction false} FormatConformsIff(rv64: bool, s: CString, i: nat, args: seq<Arg>, k: nat)
    requires i <= |s| && RenderStandard(rv64, s, i, args, k).SomeText?
    requires NoWriteback(rv64, s, i, args, k) && Countable(args)
    ensures var r, e := Render(rv64, s, i, args, k), RenderStandard(rv64, s, i, args, k);
            r.SomeText? && |r.text| <= |e.text| && (r == e <==> AllFit(rv64, s, i, args, k))
    decreases |s| - i
  {
    hide Parse, SpecAt, Convert, ConvertStandard, ConversionFits, Plain, Reading;
    if i == |s| {
    } else if s[i] != '%' {
      FormatConformsIff(rv64, s, i + 1, args, k);
      SamePieces([s[i]], Render(rv64, s, i + 1, args, k).text, [s[i]], RenderStandard(rv64, s, i + 1, args, k).text);
    } else {
      var d := SpecAt(s, i, args, k);
      SpecIsPlain(s, i, args, k);
      var e := ConvertStandard(rv64, s[d.at], d.at == i + 1, d, args);
      NoDash(rv64, s[d.at], d.at == i + 1, d, args);
      ParseAgrees(rv64, s, i, args, k);
      ConversionConforms(rv64, s[d.at], d.at == i + 1, d, args);
      FormatConformsIff(rv64, s, d.at + 1, args, e.k);
      ReadingIs(rv64, d);
      SamePieces(Convert(rv64, s[d.at], Reading(rv64, d), args).text, Render(rv64, s, d.at + 1, args, e.k).text,
                 e.text, RenderStandard(rv64, s, d.at + 1, args, e.k).text);
    }
  }

  /** Strings beyond counting included, a format whose conversions all fit is written as the
      standard has it. */
  lemma {:induction false} FormatConforms(rv64: bool, s: CString, i: nat, args: seq<Arg>, k: nat)
    requires i <= |s| && RenderStandard(rv64, s, i, args, k).SomeText?
    requires NoWriteback(rv64, s, i, args, k) && AllFit(rv64, s, i, args, k)
    ensures Render(rv64, s, i, args, k) == RenderStandard(rv64, s, i, args, k)
    decreases |s| - i
  {
    hide Parse, SpecAt, Convert, ConvertStandard, ConversionFits, Plain, Reading;
    if i == |s| {
    } else if s[i] != '%' {
      FormatConforms(rv64, s, i + 1, args, k);
    } else {
      var d := SpecAt(s, i, args, k);
      SpecIsPlain(s, i, args, k);
      NoDash(rv64, s[d.at], d.at == i + 1, d, args);
      ParseAgrees(rv64, s, i, args, k);
      ConversionConforms(rv64, s[d.at], d.at == i + 1, d, args);
      FormatConforms(rv64, s, d.at + 1, args, ConvertStandard(rv64, s[d.at], d.at == i + 1, d, args).k);
      ReadingIs(rv64, d);
    }
  }

  // --------------------------------------------------------------------- pointers

  lemma PointerIsHex(rv64: bool, p: nat)
    requires p > 0
    ensures PointerOutput(rv64, p, 0, NO_FLAGS)
            == C99.Code('x', p, 0, PointerWidth(rv64), NO_FLAGS.(hash := true, zeropad := true))
  {
    hide Repeat, Reverse, RevDigits, Prefixed, TakeBack, Fill, Append;
  }

  lemma FullField(text: seq<char>, width: nat)
    requires width <= |text|
    ensures C99.InField(text, width, false) == text
  {
  }

  lemma HexBody(p: nat, width: nat)
    requires p > 0 && |C99.Digits(p, 16, false)| + 2 <= width
    ensures C99.Converted('x', p, 0, width, NO_FLAGS.(hash := true, zeropad := true))
            == ['0', 'x'] + Repeat('0', width - 2 - |C99.Digits(p, 16, false)|) + C99.Digits(p, 16, false)
  {
    hide C99.Digits, C99.InField;
    var digits := C99.Digits(p, 16, false);
    C99.FirstDigit(p, 16, false);
    assert Repeat('0', 1 - |digits|) == [];
    assert C99.DigitText('x', p, 0, NO_FLAGS.(hash := true, zeropad := true)) == digits;
    assert C99.Body('x', p, 0, width, NO_FLAGS.(hash := true, zeropad := true))
        == ['0', 'x'] + Repeat('0', width - 2 - |digits|) + digits;
    FullField(['0', 'x'] + Repeat('0', width - 2 - |digits|) + digits, width);
  }

  lemma SixteenTimes(k: nat)
    requires k > 0
    ensures Pow2(4 * k) == 16 * Pow2(4 * (k - 1))
  {
    hide Pow2;
    Pow2Values();
    Pow2Add(4, 4 * (k - 1));
  }

  lemma {:induction false} HexLength(v: nat, k: nat)
    requires v < Pow2(4 * k)
    ensures |C99.Digits(v, 16, false)| <= k
    decreases k
  {
    if k == 0 {
      assert Pow2(0) == 1;
    } else {
      SixteenTimes(k);
      HexLength(v / 16, k - 1);
    }
  }

  /** A plain %p of an address is 0x and two hexadecimal digits for each byte. */
  lemma PointerText(rv64: bool, p: nat)
    requires 0 < p < if rv64 then TWO64 else TWO32
    ensures var digits := C99.Digits(p, 16, false);
            && |digits| <= PointerWidth(rv64) - 2
            && PointerOutput(rv64, p, 0, NO_FLAGS)
               == ['0', 'x'] + Repeat('0', PointerWidth(rv64) - 2 - |digits|) + digits
  {
    hide C99.Digits, C99.Body, C99.Code, C99.Converted, PointerOutput, Repeat, C99.FitsBuffer, Pow2;
    var f := NO_FLAGS.(hash := true, zeropad := true);
    assert p < Pow2(4 * (if rv64 then 16 else 8)) by {
      Pow2Values();
    }
    HexLength(p, if rv64 then 16 else 8);
    PointerIsHex(rv64, p);
    C99.ConformsWithin('x', p, 0, PointerWidth(rv64), f);
    HexBody(p, PointerWidth(rv64));
  }

  // -------------------------------------------------------------------- what fails

  lemma ReadStep(t: seq<char>, before: seq<char>, d: nat, n: int)
    requires d < 10 && t == before + [('0' as int + d) as char] && Read(before, 10) == n
    ensures Read(t, 10) == n * 10 + d
  {
    hide Read;
    ReadOneMore(before, ('0' as int + d) as char, 10);
  }

  lemma Read2To32()
    ensures Read("4294967296", 10) == UINT
  {
    hide Read;
    ReadNothing("", 10);
    ReadStep("4", "", 4, 0);
    ReadStep("42", "4", 2, 4);
    ReadStep("429", "42", 9, 42);
    ReadStep("4294", "429", 4, 429);
    ReadStep("42949", "4294", 9, 4294);
    ReadStep("429496", "42949", 6, 42949);
    ReadStep("4294967", "429496", 7, 429496);
    ReadStep("42949672", "4294967", 2, 4294967);
    ReadStep("429496729", "42949672", 9, 42949672);
    ReadStep("4294967296", "429496729", 6, 429496729);
  }

  lemma NoWidth(s: CString, i: nat, args: seq<Arg>, k: nat)
    requires i + 1 < |s| && !IsFlag(s[i + 1]) && !IsDigit(s[i + 1]) && s[i + 1] != '*'
    ensures SpecAt(s, i, args, k) == WithPrecision(s, i + 1, args, k, NO_FLAGS, 0)
  {
    hide WithPrecision, FlagsOf;
    NoFlags();
    assert s[i + 1..i + 1] == [];
    RunNat(s, i + 1);
  }

  lemma DigitsTo12(s: CString)
    requires s == "%.4294967296s"
    ensures DigitRun(s, 2) == 12
  {
    hide DigitRun;
    RunIs(s, 2, 12);
  }

  lemma HugePrecision(s: CString, args: seq<Arg>)
    requires s == "%.4294967296s"
    ensures SpecAt(s, 0, args, 0) == Spec(12, 0, NO_FLAGS.(precision := true), 0, UINT, [])
  {
    hide Read, SpecAt, Ten;
    NoWidth(s, 0, args, 0);
    RunNat(s, 2);
    assert s[2..12] == "4294967296" && s[12..12] == [];
    DigitsTo12(s);
    Read2To32();
  }

  /** A format that is one directive. */
  lemma OneDirective(rv64: bool, s: CString, args: seq<Arg>, d: Spec)
    requires |s| > 0 && s[0] == '%' && SpecAt(s, 0, args, 0) == d && d.Spec? && d.at + 1 == |s| && s[d.at] != '-'
    ensures var c := Convert(rv64, s[d.at], Reading(rv64, d), args);
            c.Right? ==> Render(rv64, s, 0, args, 0) == SomeText(c.text)
    ensures var e := ConvertStandard(rv64, s[d.at], d.at == 1, d, args);
            e.Right? ==> RenderStandard(rv64, s, 0, args, 0) == SomeText(e.text)
  {
    hide SpecAt, Parse, Convert, ConvertStandard, Reading;
    ParseAgrees(rv64, s, 0, args, 0);
    ReadingIs(rv64, d);
    var c, e := Convert(rv64, s[d.at], Reading(rv64, d), args), ConvertStandard(rv64, s[d.at], d.at == 1, d, args);
    assert c.Right? ==> c.text + [] == c.text;
    assert e.Right? ==> e.text + [] == e.text;
    if c.Right? {
      assert Render(rv64, s, d.at + 1, args, c.k) == SomeText([]);
    }
    if e.Right? {
      assert RenderStandard(rv64, s, d.at + 1, args, e.k) == SomeText([]);
    }
  }

  /** A precision of 2^32 cuts "abc" to nothing. */
  lemma WrappedPrecision(rv64: bool)
    ensures Render(rv64, "%.4294967296s", 0, [Text("abc")], 0) == SomeText("")
    ensures RenderStandard(rv64, "%.4294967296s", 0, [Text("abc")], 0) == SomeText("abc")
  {
    hide SpecAt, Parse, Render, RenderStandard;
    var s: CString, args := "%.4294967296s", [Text("abc")];
    HugePrecision(s, args);
    OneDirective(rv64, s, args, Spec(12, 0, NO_FLAGS.(precision := true), 0, UINT, []));
    assert Repeat(' ', 0) == [] && Repeat(' ', -3) == [];
  }

  /** %n, which the standard has write nothing, prints its n. */
  lemma PercentN(rv64: bool, p: nat)
    ensures Render(rv64, "%n", 0, [Address(p)], 0) == SomeText("n")
    ensures RenderStandard(rv64, "%n", 0, [Address(p)], 0) == SomeText("")
  {
    hide SpecAt, Parse, Render, RenderStandard, AddressOf;
    var s: CString, args := "%n", [Address(p)];
    NoWidth(s, 0, args, 0);
    assert s[1..1] == [];
    OneDirective(rv64, s, args, Spec(1, 0, NO_FLAGS, 0, 0, []));
  }

  lemma WidthFirst(s: CString, i: nat, args: seq<Arg>, k: nat)
    requires i + 1 < |s| && !IsFlag(s[i + 1]) && IsDigit(s[i + 1])
    ensures SpecAt(s, i, args, k)
            == WithPrecision(s, DigitRun(s, i + 1), args, k, NO_FLAGS, Size(Read(s[i + 1..DigitRun(s, i + 1)], 10)))
  {
    hide WithPrecision, FlagsOf, Read, DigitRun;
    NoFlags();
    assert s[i + 1..i + 1] == [];
    RunNat(s, i + 1);
  }

  lemma Read20()
    ensures Read("20", 10) == 20
  {
    hide Read;
    ReadNothing("", 10);
    ReadStep("2", "", 2, 0);
    ReadStep("20", "2", 0, 2);
  }

  /** p does not look at its width: the field of 20 is short of it. */
  lemma PointerTwenty(rv64: bool, p: nat)
    requires 0 < p < if rv64 then TWO64 else TWO32
    ensures var r := Render(rv64, "%20p", 0, [Address(p)], 0);
            r.SomeText? && |r.text| == PointerWidth(rv64)
    ensures var e := RenderStandard(rv64, "%20p", 0, [Address(p)], 0);
            e.SomeText? && |e.text| == 20
  {
    hide SpecAt, Parse, PointerOutput, Render, RenderStandard, Read;
    var s: CString, args := "%20p", [Address(p)];
    WidthFirst(s, 0, args, 0);
    assert DigitRun(s, 1) == 3;
    assert s[1..3] == "20" && s[3..3] == [];
    Read20();
    OneDirective(rv64, s, args, Spec(3, 0, NO_FLAGS, 20, 0, []));
    WrapSmall(if rv64 then TWO64 else TWO32, p);
    PointerText(rv64, p);
  }

  /** With a string beyond counting, two misfits can make up for each other: the one blank too
      many after it is the one that a blank sign loses. */
  lemma BlanksTrade(t: CString, value: nat)
    requires |t| == INT_MAX + 1 && value < 0x8000_0000_0000_0000
    ensures var f, g := NO_FLAGS.(left := true), NO_FLAGS.(space := true, precision := true);
            var out, number := StringOutput(t, INT_MAX + 1, 0, f), C99.Code('d', value, 32, 0, g);
            var out', number' := StringStandard(t, INT_MAX + 1, 0, f), C99.Converted('d', value, 32, 0, g);
            out + number == out' + number' && out != out' && number != number'
  {
    hide C99.Code, C99.Body, C99.Number;
    var f, g := NO_FLAGS.(left := true), NO_FLAGS.(space := true, precision := true);
    C99.BlankLength('d', value, 32, 0, g);
    C99.BlankNumber('d', value, 32, 0, g);
    C99.CodeIs('d', value, 32, 0, g);
    var number := C99.Number('d', value, 32, 0, g);
    assert Repeat(' ', -32) == [] && Repeat(' ', -33) == [] && Repeat(' ', 0) == [];
    assert Repeat(' ', 1) == [' '];
    assert StringOutput(t, INT_MAX + 1, 0, f) == t + [' '];
    assert t + [' '] + number == t + ([' '] + number);
  }
}
