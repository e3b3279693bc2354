/** Conversion specifications as section 7.19.6.1 of ISO/IEC 9899:1999 writes them, with numbers
    of any size, and how the parser of sdk/librv/printf.c reads them. */
module Grammar {
  import opened Output
  import opened Words
  import opened IntegerText
  import opened ReadBack
  import opened Directives

  /** The flags, and the flags that a text of them sets. */
  predicate FlagChar(c: char) {
    c in "-+ #0"
  }

  function WrittenFlags(t: seq<char>): (f: Flags)
    ensures f == FlagsOf(t)
  {
    NO_FLAGS.(left := '-' in t, plus := '+' in t, space := ' ' in t, hash := '#' in t, zeropad := '0' in t)
  }

  /** Where the flags end. */
  function FlagEnd(s: CString, i: nat): (j: nat)
    requires i <= |s|
    ensures j == FlagRun(s, i)
    decreases |s| - i
  {
    if i < |s| && FlagChar(s[i]) then FlagEnd(s, i + 1) else i
  }

  /** Where a decimal integer ends, and its value. */
  function IntegerEnd(s: CString, i: nat): (j: nat)
    requires i <= |s|
    ensures j == DigitRun(s, i)
    decreases |s| - i
  {
    if i < |s| && s[i] in "0123456789" then IntegerEnd(s, i + 1) else i
  }

  function Ten(t: seq<char>): int {
    if |t| == 0 then 0 else 10 * Ten(t[..|t| - 1]) + (t[|t| - 1] as int - '0' as int)
  }

  /** The length modifiers. */
  function ModifierEnd(s: CString, i: nat): (j: nat)
    requires i <= |s|
    ensures j == LengthEnd(s, i)
  {
    if i + 1 < |s| && s[i] == s[i + 1] && s[i] in "hl" then i + 2
    else if i < |s| && s[i] in "hljztL" then i + 1
    else i
  }

  lemma SignedIs(v: int, m: nat)
    requires m > 0 && m % 2 == 0
    ensures (v + m / 2) % m - m / 2 == SignedArg(v, m)
  {
    var k, u, h := v / m, v % m, m / 2;
    if u < h {
      DivModUnique(v + h, m, k, u + h);
    } else {
      assert v + h == (k + 1) * m + (u - h);
      DivModUnique(v + h, m, k + 1, u - h);
    }
  }

  lemma {:induction false} TenIs(t: seq<char>)
    requires forall k :: 0 <= k < |t| ==> t[k] in "0123456789"
    ensures Ten(t) == Read(t, 10)
  {
    if |t| == 0 {
    } else {
      TenIs(t[..|t| - 1]);
    }
  }

  /** An argument as a signed integer of a range. */
  function AsSigned(v: int, m: nat): (a: int)
    requires m > 0 && m % 2 == 0
    ensures a == SignedArg(v, m)
  {
    SignedIs(v, m);
    (v + m / 2) % m - m / 2
  }

  /** A width or a precision: a star, which takes an int argument, or an optional decimal
      integer. */
  datatype Number = Missing | Number(n: int, end: nat, k: nat)

  function NumberOf(s: CString, i: nat, args: seq<Arg>, k: nat): (r: Number)
    requires i <= |s|
    ensures r.Number? ==> i <= r.end <= |s|
  {
    if i < |s| && s[i] == '*' then
      if k < |args| && args[k].Num? then Number(AsSigned(args[k].v, 0x1_0000_0000), i + 1, k + 1) else Missing
    else Number(Ten(s[i..IntegerEnd(s, i)]), IntegerEnd(s, i), k)
  }

  /** A conversion specification up to its specifier: the position of that, the argument that
      comes next, flags, width, precision and length modifier. */
  datatype Spec = NoSpec | Spec(at: nat, k: nat, f: Flags, width: nat, precision: nat, length: seq<char>)

  function Size(n: int): nat {
    if n < 0 then -n else n
  }

  function WithLength(s: CString, i: nat, k: nat, f: Flags, width: nat, precision: nat): (d: Spec)
    requires i <= |s|
    ensures d.Spec? ==> i <= d.at < |s|
  {
    var at := ModifierEnd(s, i);
    if at == |s| then NoSpec else Spec(at, k, f, width, precision, s[i..at])
  }

  /** A dot begins a precision; a negative one is as if it were not there. */
  function WithPrecision(s: CString, i: nat, args: seq<Arg>, k: nat, f: Flags, width: nat): (d: Spec)
    requires i <= |s|
    ensures d.Spec? ==> i <= d.at < |s|
  {
    if i == |s| || s[i] != '.' then WithLength(s, i, k, f, width, 0)
    else
      match NumberOf(s, i + 1, args, k)
      case Missing => NoSpec
      case Number(p, end, k') =>
        if p < 0 then WithLength(s, end, k', f, width, 0)
        else WithLength(s, end, k', f.(precision := true), width, p)
  }

  /** A negative width is a - flag and a positive width. */
  function WithWidth(s: CString, i: nat, args: seq<Arg>, k: nat, f: Flags): (d: Spec)
    requires i <= |s|
    ensures d.Spec? ==> i <= d.at < |s|
  {
    match NumberOf(s, i, args, k)
    case Missing => NoSpec
    case Number(w, end, k') => WithPrecision(s, end, args, k', if w < 0 then f.(left := true) else f, Size(w))
  }

  /** The specification that a percent sign begins. */
  function SpecAt(s: CString, i: nat, args: seq<Arg>, k: nat): (d: Spec)
    requires i < |s|
    ensures d.Spec? ==> i < d.at < |s|
  {
    WithWidth(s, FlagEnd(s, i + 1), args, k, WrittenFlags(s[i + 1..FlagEnd(s, i + 1)]))
  }

  /** Flags as they are written: of the others, only that of a precision. */
  predicate Plain(f: Flags) {
    Unspecific(f) && !f.chr && !f.short && !f.long && !f.longLong
  }

  lemma WrittenPlain(t: seq<char>)
    ensures Plain(FlagsOf(t))
  {
  }

  lemma WidthPlain(s: CString, i: nat, args: seq<Arg>, k: nat, f: Flags)
    requires i <= |s| && Plain(f) && !f.precision
    ensures var d := WithWidth(s, i, args, k, f);
            d.Spec? ==> Plain(d.f) && (!d.f.precision ==> d.precision == 0)
  {
    hide NumberOf, LengthEnd;
  }

  lemma SpecIsPlain(s: CString, i: nat, args: seq<Arg>, k: nat)
    requires i < |s|
    ensures var d := SpecAt(s, i, args, k);
            d.Spec? ==> Plain(d.f) && (!d.f.precision ==> d.precision == 0)
  {
    hide NumberOf, LengthEnd, FlagRun, FlagsOf, WithWidth;
    WrittenPlain(s[i + 1..FlagRun(s, i + 1)]);
    WidthPlain(s, FlagRun(s, i + 1), args, k, FlagsOf(s[i + 1..FlagRun(s, i + 1)]));
  }

  // ------------------------------------------------------------- the parser agrees

  lemma {:induction false} ReadNat(t: seq<char>)
    requires forall k :: 0 <= k < |t| ==> IsDigit(t[k])
    ensures Read(t, 10) >= 0
  {
    if |t| == 0 {
    } else {
      ReadNat(t[..|t| - 1]);
    }
  }

  lemma RunNat(s: CString, i: nat)
    requires i <= |s|
    ensures Read(s[i..DigitRun(s, i)], 10) >= 0
    ensures i == DigitRun(s, i) ==> Read(s[i..DigitRun(s, i)], 10) == 0
    ensures Ten(s[i..DigitRun(s, i)]) == Read(s[i..DigitRun(s, i)], 10)
  {
    ReadNat(s[i..DigitRun(s, i)]);
    TenIs(s[i..DigitRun(s, i)]);
  }

  /** The code's reading of a specification: numbers modulo the range of printf_size_t. */
  function Reading(rv64: bool, d: Spec): (r: Directive)
    requires d.Spec?
    ensures r.Directive?
  {
    Directive(d.at, d.k, LengthFlags(rv64, d.length, d.f), d.width % UINT, d.precision % UINT)
  }

  lemma LengthAgrees(rv64: bool, s: CString, i: nat, k: nat, f: Flags, width: nat, precision: nat)
    requires i <= |s| && WithLength(s, i, k, f, width, precision).Spec?
    ensures ParseLength(rv64, s, i, k, f, width % UINT, precision % UINT)
            == Reading(rv64, WithLength(s, i, k, f, width, precision))
  {
    hide LengthFlags;
  }

  lemma WithDot(s: CString, i: nat, args: seq<Arg>, k: nat, f: Flags, width: nat)
    requires i < |s| && s[i] == '.' && !f.precision
    ensures match NumberOf(s, i + 1, args, k)
            case Missing => WithPrecision(s, i, args, k, f, width) == NoSpec
            case Number(p, end, k') =>
              WithPrecision(s, i, args, k, f, width)
              == WithLength(s, end, k', f.(precision := p >= 0), width, if p < 0 then 0 else p)
  {
    hide NumberOf, WithLength;
    assert f.(precision := false) == f;
  }

  lemma DashEnds(s: CString, i: nat, k: nat, f: Flags, width: nat, precision: nat)
    requires i <= |s| && WithLength(s, i, k, f, width, precision).Spec?
    ensures i < |s| && (s[i] == '-' ==> WithLength(s, i, k, f, width, precision).at == i)
  {
  }

  lemma StarAgrees(s: CString, i: nat, args: seq<Arg>, k: nat, f: Flags)
    requires i + 1 < |s| && s[i] == '*' && !f.precision && NumberOf(s, i, args, k).Number?
    ensures var n := NumberOf(s, i, args, k);
            StarPrecision(s, i, args, k, f)
            == Field(n.end, n.k, f.(precision := n.n >= 0), (if n.n < 0 then 0 else n.n) % UINT)
  {
    hide SignedArg;
  }

  /** The code reads the number of a precision; a dash ends it as it ends the specification. */
  lemma DotAgrees(s: CString, i: nat, args: seq<Arg>, k: nat, f: Flags)
    requires i < |s| && s[i] == '.' && !f.precision && NumberOf(s, i + 1, args, k).Number?
    requires NumberOf(s, i + 1, args, k).end < |s| && s[NumberOf(s, i + 1, args, k).end] != '-'
    ensures var n := NumberOf(s, i + 1, args, k);
            PrecisionAt(s, i, args, k, f)
            == Field(n.end, n.k, f.(precision := n.n >= 0), (if n.n < 0 then 0 else n.n) % UINT)
  {
    hide Read, SignedArg, StarPrecision;
    RunNat(s, i + 1);
    if s[i + 1] == '*' {
      StarAgrees(s, i + 1, args, k, f);
    }
  }

  lemma NoDot(s: CString, i: nat, args: seq<Arg>, k: nat, f: Flags)
    requires i <= |s| && At(s, i) != '.'
    ensures PrecisionAt(s, i, args, k, f) == Field(i, k, f, 0)
  {
  }

  lemma PrecisionAgrees(rv64: bool, s: CString, i: nat, args: seq<Arg>, k: nat, f: Flags, width: nat)
    requires i <= |s| && !f.precision && WithPrecision(s, i, args, k, f, width).Spec?
    requires s[WithPrecision(s, i, args, k, f, width).at] != '-'
    ensures ParsePrecision(rv64, s, i, args, k, f, width % UINT)
            == Reading(rv64, WithPrecision(s, i, args, k, f, width))
  {
    hide LengthFlags, ParseLength, PrecisionAt, SignedArg, NumberOf, WithLength, Reading;
    if At(s, i) != '.' {
      NoDot(s, i, args, k, f);
      LengthAgrees(rv64, s, i, k, f, width, 0);
    } else {
      var n := NumberOf(s, i + 1, args, k);
      var g, p := f.(precision := n.n >= 0), if n.n < 0 then 0 else n.n;
      WithDot(s, i, args, k, f, width);
      DashEnds(s, n.end, n.k, g, width, p);
      DotAgrees(s, i, args, k, f);
      LengthAgrees(rv64, s, n.end, n.k, g, width, p);
    }
  }

  /** Where the standard has a specification, the code reads it, numbers apart. */
  lemma ParseAgrees(rv64: bool, s: CString, i: nat, args: seq<Arg>, k: nat)
    requires i < |s| && SpecAt(s, i, args, k).Spec? && s[SpecAt(s, i, args, k).at] != '-'
    ensures Parse(rv64, s, i, args, k) == Reading(rv64, SpecAt(s, i, args, k))
  {
    hide LengthFlags, ParsePrecision, WithPrecision, Read, SignedArg, FlagsOf, Reading;
    var j := FlagRun(s, i + 1);
    var n := NumberOf(s, j, args, k);
    var f := FlagsOf(s[i + 1..j]);
    RunNat(s, j);
    PrecisionAgrees(rv64, s, n.end, args, n.k, if n.n < 0 then f.(left := true) else f, Size(n.n));
  }
}
