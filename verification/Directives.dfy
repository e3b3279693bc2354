/** The directives of a format string, as format_string_loop of sdk/librv/printf.c parses
    them: flags, width, precision and length, with arguments for the starred fields. */
module Directives {
  import opened Words
  import opened Output
  import opened IntegerText
  import opened ReadBack

  /** The characters of a C string before its terminator. */
  type CString = s: seq<char> | '\0' !in s

  function At(s: CString, i: nat): (c: char)
    requires i <= |s|
    ensures c == '\0' <==> i == |s|
    ensures i < |s| ==> c == s[i]
  {
    if i < |s| then s[i] else '\0'
  }

  /** A variable argument: the bits of an integer, a string, or another address. */
  datatype Arg = Num(v: int) | Text(s: CString) | Address(p: nat)

  /** The signed integer in the low bits of an argument. */
  function SignedArg(v: int, m: nat): (a: int)
    requires m > 0
    ensures -(m as int) <= 2 * a < m
  {
    Signed(m, Wrap(m, v))
  }

  /** A field of a directive: where parsing goes on, or that format_string_loop returns at a
      terminator, or that an argument is missing or of the wrong kind. */
  datatype Field = Returned | Undefined | Field(i: nat, k: nat, f: Flags, n: nat)

  datatype Directive = Ended | Unspecified | Directive(at: nat, k: nat, f: Flags, width: nat, precision: nat)

  // ------------------------------------------------------------ specifications

  predicate IsFlag(c: char) {
    c == '0' || c == '-' || c == '+' || c == ' ' || c == '#'
  }

  predicate IsDigit(c: char) {
    '0' <= c <= '9'
  }

  /** The end of the longest run of flags. */
  function FlagRun(s: CString, i: nat): (j: nat)
    requires i <= |s|
    ensures i <= j <= |s| && !IsFlag(At(s, j)) && forall k :: i <= k < j ==> IsFlag(s[k])
    decreases |s| - i
  {
    if IsFlag(At(s, i)) then FlagRun(s, i + 1) else i
  }

  /** The end of the longest run of digits. */
  function DigitRun(s: CString, i: nat): (j: nat)
    requires i <= |s|
    ensures i <= j <= |s| && !IsDigit(At(s, j)) && forall k :: i <= k < j ==> IsDigit(s[k])
    decreases |s| - i
  {
    if IsDigit(At(s, i)) then DigitRun(s, i + 1) else i
  }

  /** Flags that no specifier has touched. */
  predicate Unspecific(f: Flags) {
    !f.upper && !f.pointer
  }

  function FlagsOf(t: seq<char>): (f: Flags)
    ensures !f.precision && Unspecific(f)
  {
    NO_FLAGS.(zeropad := '0' in t, left := '-' in t, plus := '+' in t, space := ' ' in t, hash := '#' in t)
  }

  /** A number in a format, in the 32 bits of printf_size_t. */
  function NumberAt(s: CString, i: nat): nat
    requires i <= |s|
  {
    Read(s[i..DigitRun(s, i)], 10) % UINT
  }

  function WidthAt(s: CString, i: nat, args: seq<Arg>, k: nat, f: Flags): (r: Field)
    requires i <= |s|
    ensures r.Field? ==> i <= r.i <= |s| && r.n < UINT && r.f.precision == f.precision
    ensures r.Field? && Unspecific(f) ==> Unspecific(r.f)
  {
    if IsDigit(At(s, i)) then
      Field(DigitRun(s, i), k, f, NumberAt(s, i))
    else if At(s, i) == '*' then
      if k < |args| && args[k].Num? then
        var w := SignedArg(args[k].v, UINT);
        if i + 1 == |s| then Returned
        else Field(i + 1, k + 1, if w < 0 then f.(left := true) else f, if w < 0 then -w else w)
      else Undefined
    else Field(i, k, f, 0)
  }

  /** A precision taken from an argument. */
  function StarPrecision(s: CString, i: nat, args: seq<Arg>, k: nat, f: Flags): (r: Field)
    requires i < |s|
    ensures r.Field? ==> i <= r.i <= |s| && r.n < UINT
    ensures r.Field? && !r.f.precision ==> r.n == 0
    ensures r.Field? && Unspecific(f) ==> Unspecific(r.f)
  {
    if k < |args| && args[k].Num? then
      var p := SignedArg(args[k].v, UINT);
      if i + 1 == |s| then Returned
      else if p < 0 then Field(i + 1, k + 1, f.(precision := false), 0)
      else Field(i + 1, k + 1, f.(precision := true), p)
    else Undefined
  }

  /** What follows the dot of a precision. */
  function AfterDot(s: CString, i: nat, args: seq<Arg>, k: nat, f: Flags): (r: Field)
    requires i < |s|
    ensures r.Field? ==> i <= r.i <= |s| && r.n < UINT
    ensures r.Field? && !r.f.precision ==> r.n == 0
    ensures r.Field? && Unspecific(f) ==> Unspecific(r.f)
  {
    if s[i] == '-' then
      var end := DigitRun(s, i + 1);
      if end == |s| then Returned else Field(end, k, f.(precision := false), 0)
    else if IsDigit(s[i]) then
      Field(DigitRun(s, i), k, f.(precision := true), NumberAt(s, i))
    else if s[i] == '*' then StarPrecision(s, i, args, k, f)
    else Field(i, k, f.(precision := true), 0)
  }

  function PrecisionAt(s: CString, i: nat, args: seq<Arg>, k: nat, f: Flags): (r: Field)
    requires i <= |s|
    ensures r.Field? ==> i <= r.i <= |s| && r.n < UINT
    ensures r.Field? && !r.f.precision && !f.precision ==> r.n == 0
    ensures r.Field? && Unspecific(f) ==> Unspecific(r.f)
  {
    if At(s, i) != '.' then Field(i, k, f, 0)
    else if i + 1 == |s| then Returned
    else AfterDot(s, i + 1, args, k, f)
  }

  /** Flags alike but for those of a length. */
  predicate SameFlags(f: Flags, g: Flags) {
    && f.zeropad == g.zeropad && f.left == g.left && f.plus == g.plus && f.space == g.space && f.hash == g.hash
    && f.precision == g.precision && f.upper == g.upper && f.pointer == g.pointer
  }

  /** t, z and j stand for the modifier whose type has the size of ptrdiff_t, size_t and
      intmax_t in the ILP32 or the LP64 conventions. */
  function SizeFlags(rv64: bool, c: char, f: Flags): (g: Flags)
    ensures SameFlags(g, f)
  {
    if c == 't' || c == 'z' then (if rv64 then f.(long := true) else f)
    else if c == 'j' then (if rv64 then f.(long := true) else f.(longLong := true))
    else f
  }

  /** The flags of a length modifier. */
  function LengthFlags(rv64: bool, t: seq<char>, f: Flags): (g: Flags)
    ensures SameFlags(g, f)
  {
    if t == ['l'] then f.(long := true)
    else if t == ['l', 'l'] then f.(long := true, longLong := true)
    else if t == ['h'] then f.(short := true)
    else if t == ['h', 'h'] then f.(short := true, chr := true)
    else if |t| == 1 then SizeFlags(rv64, t[0], f)
    else f
  }

  predicate IsLength(c: char) {
    c == 'l' || c == 'L' || c == 'h' || c == 't' || c == 'j' || c == 'z'
  }

  /** The length modifier at a position: one letter, or ll or hh. */
  function LengthEnd(s: CString, i: nat): (j: nat)
    requires i <= |s|
    ensures i <= j <= |s|
  {
    if !IsLength(At(s, i)) then i
    else if (s[i] == 'l' || s[i] == 'h') && At(s, i + 1) == s[i] then i + 2
    else i + 1
  }

  function ParseLength(rv64: bool, s: CString, i: nat, k: nat, f: Flags, width: nat, precision: nat): (d: Directive)
    requires i <= |s|
    ensures d.Directive? ==> i <= d.at <= |s| && d.width == width && d.precision == precision
    ensures d.Directive? ==> d.f.precision == f.precision && (Unspecific(f) ==> Unspecific(d.f))
  {
    var at := LengthEnd(s, i);
    if at == |s| && i < |s| then Ended else Directive(at, k, LengthFlags(rv64, s[i..at], f), width, precision)
  }

  function ParsePrecision(rv64: bool, s: CString, i: nat, args: seq<Arg>, k: nat, f: Flags, width: nat): (d: Directive)
    requires i <= |s| && !f.precision
    ensures d.Directive? ==> i <= d.at <= |s| && d.width == width && d.precision < UINT
    ensures d.Directive? && !d.f.precision ==> d.precision == 0
    ensures d.Directive? && Unspecific(f) ==> Unspecific(d.f)
  {
    match PrecisionAt(s, i, args, k, f)
    case Returned => Ended
    case Undefined => Unspecified
    case Field(j, k', g, precision) => ParseLength(rv64, s, j, k', g, width, precision)
  }

  /** The directive that a percent sign begins. */
  function Parse(rv64: bool, s: CString, i: nat, args: seq<Arg>, k: nat): (d: Directive)
    requires i < |s|
    ensures d.Directive? ==> i < d.at <= |s| && d.width < UINT && d.precision < UINT
    ensures d.Directive? ==> (!d.f.precision ==> d.precision == 0) && Unspecific(d.f)
  {
    if i + 1 == |s| then Ended
    else
      var j := FlagRun(s, i + 1);
      match WidthAt(s, j, args, k, FlagsOf(s[i + 1..j]))
      case Returned => Ended
      case Undefined => Unspecified
      case Field(j', k', f, width) => ParsePrecision(rv64, s, j', args, k', f, width)
  }

  // ------------------------------------------------------------------- methods

  lemma NoFlags()
    ensures FlagsOf([]) == NO_FLAGS
  {
  }

  lemma OneFlag(t: seq<char>, c: char)
    ensures c == '0' ==> FlagsOf(t + [c]) == FlagsOf(t).(zeropad := true)
    ensures c == '-' ==> FlagsOf(t + [c]) == FlagsOf(t).(left := true)
    ensures c == '+' ==> FlagsOf(t + [c]) == FlagsOf(t).(plus := true)
    ensures c == ' ' ==> FlagsOf(t + [c]) == FlagsOf(t).(space := true)
    ensures c == '#' ==> FlagsOf(t + [c]) == FlagsOf(t).(hash := true)
  {
  }

  /** parse_flags. */
  method ParseFlags(s: CString, from: nat) returns (f: Flags, i: nat)
    requires from <= |s|
    ensures i == FlagRun(s, from) && f == FlagsOf(s[from..i])
  {
    hide FlagsOf;
    f, i := NO_FLAGS, from;
    NoFlags();
    assert s[from..i] == [];
    while true
      invariant from <= i <= |s| && FlagRun(s, i) == FlagRun(s, from)
      invariant f == FlagsOf(s[from..i])
      decreases |s| - i
    {
      var c := At(s, i);
      if c == '0' {
        f := f.(zeropad := true);
      } else if c == '-' {
        f := f.(left := true);
      } else if c == '+' {
        f := f.(plus := true);
      } else if c == ' ' {
        f := f.(space := true);
      } else if c == '#' {
        f := f.(hash := true);
      } else {
        return;
      }
      OneFlag(s[from..i], c);
      assert s[from..i + 1] == s[from..i] + [c];
      i := i + 1;
    }
  }

  lemma ReadMore(s: CString, from: nat, i: nat)
    requires from <= i < |s| && IsDigit(s[i])
    ensures Read(s[from..i + 1], 10) == Read(s[from..i], 10) * 10 + (s[i] as int - '0' as int)
  {
    assert s[from..i + 1][..i - from] == s[from..i];
  }

  lemma MoreDigits(x: int, d: int)
    ensures ((x % UINT) * 10 + d) % UINT == (x * 10 + d) % UINT
  {
    ModShift((x % UINT) * 10 + d, x / UINT * 10, UINT);
  }

  /** atou_. */
  method Atou(s: CString, from: nat) returns (n: nat, i: nat)
    requires from <= |s|
    ensures i == DigitRun(s, from) && n == NumberAt(s, from)
  {
    hide Read, DigitValue;
    n, i := 0, from;
    ReadNothing(s[from..i], 10);
    while IsDigit(At(s, i))
      invariant from <= i <= |s| && DigitRun(s, i) == DigitRun(s, from)
      invariant n == Read(s[from..i], 10) % UINT
      decreases |s| - i
    {
      ReadMore(s, from, i);
      MoreDigits(Read(s[from..i], 10), s[i] as int - '0' as int);
      n := (n * 10 + (s[i] as int - '0' as int)) % UINT;
      i := i + 1;
    }
  }

  /** Evaluates the width field. */
  method EvaluateWidth(s: CString, from: nat, args: seq<Arg>, arg: nat, flags: Flags) returns (r: Field)
    requires from <= |s| && !WidthAt(s, from, args, arg, flags).Undefined?
    ensures r == WidthAt(s, from, args, arg, flags)
  {
    hide NumberAt;
    var i, k, f, width := from, arg, flags, 0;
    if IsDigit(At(s, i)) {
      width, i := Atou(s, i);
    } else if At(s, i) == '*' {
      var w := SignedArg(args[k].v, UINT);
      k := k + 1;
      if w < 0 {
        f := f.(left := true);
        width := -w;
      } else {
        width := w;
      }
      i := i + 1;
      if At(s, i) == '\0' {
        return Returned;
      }
    }
    r := Field(i, k, f, width);
  }

  /** Skips a negative precision: advances at least once, then past digits. */
  method SkipNegative(s: CString, from: nat) returns (ended: bool, i: nat)
    requires from < |s|
    ensures ended <==> DigitRun(s, from + 1) == |s|
    ensures !ended ==> i == DigitRun(s, from + 1)
  {
    i := from;
    var first := true;
    while first || IsDigit(At(s, i))
      invariant from <= i <= |s| && (first <==> i == from)
      invariant !first ==> i < |s| && DigitRun(s, i) == DigitRun(s, from + 1)
      decreases |s| - i
    {
      first := false;
      i := i + 1;
      if At(s, i) == '\0' {
        return true, i;
      }
    }
    ended := false;
  }

  /** Evaluates a precision that an argument gives. */
  method EvaluateStar(s: CString, from: nat, args: seq<Arg>, arg: nat, flags: Flags) returns (r: Field)
    requires from < |s| && !StarPrecision(s, from, args, arg, flags).Undefined?
    ensures r == StarPrecision(s, from, args, arg, flags)
  {
    hide SignedArg, At;
    var p := SignedArg(args[arg].v, UINT);
    if At(s, from + 1) == '\0' {
      return Returned;
    }
    if p < 0 {
      return Field(from + 1, arg + 1, flags.(precision := false), 0);
    }
    return Field(from + 1, arg + 1, flags.(precision := true), if p > 0 then p else 0);
  }

  /** Evaluates a precision after its dot. */
  method EvaluateAfterDot(s: CString, from: nat, args: seq<Arg>, arg: nat, flags: Flags) returns (r: Field)
    requires from < |s| && !AfterDot(s, from, args, arg, flags).Undefined?
    ensures r == AfterDot(s, from, args, arg, flags)
  {
    hide NumberAt, DigitRun, StarPrecision, At;
    if s[from] == '-' {
      var ended, i := SkipNegative(s, from);
      if ended {
        return Returned;
      }
      return Field(i, arg, flags.(precision := false), 0);
    }
    if IsDigit(s[from]) {
      var precision, i := Atou(s, from);
      return Field(i, arg, flags.(precision := true), precision);
    }
    if s[from] == '*' {
      r := EvaluateStar(s, from, args, arg, flags);
      return;
    }
    return Field(from, arg, flags.(precision := true), 0);
  }

  /** Evaluates the precision field. */
  method EvaluatePrecision(s: CString, from: nat, args: seq<Arg>, arg: nat, flags: Flags) returns (r: Field)
    requires from <= |s| && !PrecisionAt(s, from, args, arg, flags).Undefined?
    ensures r == PrecisionAt(s, from, args, arg, flags)
  {
    hide AfterDot;
    if At(s, from) == '.' {
      if At(s, from + 1) == '\0' {
        return Returned;
      }
      r := EvaluateAfterDot(s, from + 1, args, arg, flags);
    } else {
      r := Field(from, arg, flags, 0);
    }
  }

  lemma Lengths(rv64: bool, f: Flags, c: char)
    ensures LengthFlags(rv64, [], f) == f
    ensures c == 'l' ==> LengthFlags(rv64, [c], f) == f.(long := true)
    ensures c == 'l' ==> LengthFlags(rv64, [c, c], f) == f.(long := true, longLong := true)
    ensures c == 'h' ==> LengthFlags(rv64, [c], f) == f.(short := true)
    ensures c == 'h' ==> LengthFlags(rv64, [c, c], f) == f.(short := true, chr := true)
    ensures c != 'l' && c != 'h' ==> LengthFlags(rv64, [c], f) == SizeFlags(rv64, c, f)
  {
  }

  lemma Sections(s: CString, i: nat)
    requires i <= |s|
    ensures s[i..i] == []
    ensures i + 1 <= |s| ==> s[i..i + 1] == [s[i]]
    ensures i + 2 <= |s| ==> s[i..i + 2] == [s[i], s[i + 1]]
  {
  }

  /** Advances past an l or h, and past a second one. */
  method AdvanceTwice(s: CString, from: nat) returns (i: nat, twice: bool)
    requires from < |s| && (s[from] == 'l' || s[from] == 'h')
    ensures i == LengthEnd(s, from)
    ensures s[from..i] == if twice then [s[from], s[from]] else [s[from]]
  {
    Sections(s, from);
    i, twice := from + 1, false;
    if At(s, i) == '\0' {
      return;
    }
    if s[i] == s[from] {
      i, twice := i + 1, true;
    }
  }

  /** Evaluates the length field: a terminator within it ends the format. */
  method EvaluateLength(rv64: bool, s: CString, from: nat, flags: Flags) returns (i: nat, f: Flags)
    requires from <= |s|
    ensures i == LengthEnd(s, from) && f == LengthFlags(rv64, s[from..i], flags)
  {
    hide LengthFlags, At, SizeFlags;
    i, f := from, flags;
    Lengths(rv64, flags, At(s, from));
    Sections(s, from);
    if At(s, from) == 'l' {
      var twice;
      i, twice := AdvanceTwice(s, from);
      return i, if twice then f.(long := true, longLong := true) else f.(long := true);
    } else if At(s, from) == 'h' {
      var twice;
      i, twice := AdvanceTwice(s, from);
      return i, if twice then f.(short := true, chr := true) else f.(short := true);
    } else if IsLength(At(s, from)) {
      return from + 1, SizeFlags(rv64, At(s, from), f);
    }
  }

  /** The part of format_string_loop between a percent sign and its specifier. */
  method ParseDirective(rv64: bool, s: CString, percent: nat, args: seq<Arg>, arg: nat) returns (d: Directive)
    requires percent < |s| && !Parse(rv64, s, percent, args, arg).Unspecified?
    ensures d == Parse(rv64, s, percent, args, arg)
  {
    hide WidthAt, PrecisionAt, LengthEnd, LengthFlags, FlagsOf;
    var i := percent + 1;
    if At(s, i) == '\0' {
      return Ended;
    }
    var f;
    f, i := ParseFlags(s, i);
    var width := EvaluateWidth(s, i, args, arg, f);
    if width.Returned? {
      return Ended;
    }
    var precision := EvaluatePrecision(s, width.i, args, width.k, width.f);
    if precision.Returned? {
      return Ended;
    }
    i, f := EvaluateLength(rv64, s, precision.i, precision.f);
    if i > precision.i && At(s, i) == '\0' {
      return Ended;
    }
    d := Directive(i, precision.k, f, width.n, precision.n);
  }
}
