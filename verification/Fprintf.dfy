/** What section 7.19.6.1 of ISO/IEC 9899:1999 asks fprintf to write, for the formats and the
    arguments for which it defines that, floating-point and wide characters apart. */
module Fprintf {
  import opened Arch
  import opened IntegerText
  import opened Directives
  import opened Grammar
  import opened Format
  import C99

  /** The range of the type that a length modifier names, int without one; none for L. */
  function TypeRange(rv64: bool, length: seq<char>): (m: nat)
    ensures m % 2 == 0
  {
    if length == [] then 0x1_0000_0000
    else if length == ['h', 'h'] then 0x100
    else if length == ['h'] then 0x1_0000
    else if length == ['l', 'l'] || length == ['j'] then 0x1_0000_0000_0000_0000
    else if length == ['l'] || length == ['z'] || length == ['t'] then
      (if rv64 then 0x1_0000_0000_0000_0000 else 0x1_0000_0000)
    else 0
  }

  /** The argument of an integer conversion, at its type. */
  function IntegerValue(rv64: bool, conv: char, length: seq<char>, v: int): int
    requires TypeRange(rv64, length) > 0
  {
    var m := TypeRange(rv64, length);
    if conv == 'd' || conv == 'i' then AsSigned(v, m) else v % m
  }

  /** c: the argument as an unsigned char, in a field. */
  function CharStandard(v: int, width: nat, f: Flags): seq<char> {
    C99.InField([(v % 0x100) as char], width, f.left)
  }

  /** s: the characters of the string, no more than a given precision, in a field. */
  function StringStandard(t: CString, width: nat, precision: nat, f: Flags): seq<char> {
    C99.InField(if f.precision && precision < |t| then t[..precision] else t, width, f.left)
  }

  /** p: characters that the implementation chooses, in a field. */
  function PointerStandard(rv64: bool, p: nat, width: nat, f: Flags): seq<char> {
    C99.InField(PointerOutput(rv64, AddressOf(rv64, p), 0, f), width, f.left)
  }

  /** No flag or modifier whose effect on c, s, p and n is undefined. */
  predicate Bare(d: Spec)
    requires d.Spec?
  {
    !d.f.hash && !d.f.zeropad && d.length == []
  }

  /** The specifiers that take their own argument, where their effect is defined. */
  function ConvertArg(rv64: bool, conv: char, d: Spec, arg: Arg): Conversion
    requires d.Spec?
  {
    match arg
    case Num(v) =>
      if C99.IsConversion(conv) && TypeRange(rv64, d.length) > 0
         && (d.f.hash ==> conv == 'o' || conv == 'x' || conv == 'X')
      then Right(C99.Converted(conv, IntegerValue(rv64, conv, d.length, v), d.precision, d.width, d.f), d.k + 1)
      else if conv == 'c' && Bare(d) && !d.f.precision then Right(CharStandard(v, d.width, d.f), d.k + 1)
      else Wrong
    case Text(t) =>
      if conv == 's' && Bare(d) then Right(StringStandard(t, d.width, d.precision, d.f), d.k + 1) else Wrong
    case Address(p) =>
      if conv == 'p' && Bare(d) && !d.f.precision then Right(PointerStandard(rv64, p, d.width, d.f), d.k + 1)
      else if conv == 'n' && d.f == NO_FLAGS && d.width == 0 && TypeRange(rv64, d.length) > 0 then Right([], d.k + 1)
      else Wrong
  }

  /** A conversion: a second percent sign right after the first, or one with an argument. */
  function ConvertStandard(rv64: bool, conv: char, next: bool, d: Spec, args: seq<Arg>): Conversion
    requires d.Spec?
  {
    if conv == '%' then (if next then Right(['%'], d.k) else Wrong)
    else if d.k < |args| then ConvertArg(rv64, conv, d, args[d.k])
    else Wrong
  }

  /** The text that the standard gives a format and its arguments. */
  function RenderStandard(rv64: bool, s: CString, i: nat, args: seq<Arg>, k: nat): Rendering
    requires i <= |s|
    decreases |s| - i
  {
    if i == |s| then SomeText([])
    else if s[i] != '%' then Prepend([s[i]], RenderStandard(rv64, s, i + 1, args, k))
    else
      match SpecAt(s, i, args, k)
      case NoSpec => NoText
      case Spec(at, k', f, width, precision, length) =>
        match ConvertStandard(rv64, s[at], at == i + 1, Spec(at, k', f, width, precision, length), args)
        case Wrong => NoText
        case Right(t, k'') => Prepend(t, RenderStandard(rv64, s, at + 1, args, k''))
  }
}
