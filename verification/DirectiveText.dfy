/** Printing a directive, stars included, and parsing it back. */
module DirectiveText {
  import opened Output
  import opened IntegerText
  import opened ReadBack
  import opened Directives
  import opened Grammar
  import C99

  /** A width or a precision as it is written: not at all, in digits, or as a star for an
      argument. */
  datatype Numeral = Absent | Given(n: nat) | Starred(v: int)

  /** A directive: some flags, a width, a precision, a length modifier and a conversion
      specifier. */
  datatype Shape = Shape(f: Flags, width: Numeral, precision: Numeral, length: seq<char>, conv: char)

  predicate IsModifier(t: seq<char>) {
    t in {"", "hh", "h", "l", "ll", "j", "z", "t", "L"}
  }

  /** Characters that can stand for a conversion. */
  predicate IsSpecifier(c: char) {
    c != '\0' && c != '.' && c != '*' && !IsFlag(c) && !IsDigit(c) && !IsLength(c)
  }

  /** No flags but those that are written in a format. */
  predicate OnlyWritten(f: Flags) {
    f == NO_FLAGS.(zeropad := f.zeropad, left := f.left, plus := f.plus, space := f.space, hash := f.hash)
  }

  predicate WellFormed(d: Shape) {
    OnlyWritten(d.f) && d.width != Given(0) && IsModifier(d.length) && IsSpecifier(d.conv)
  }

  function Mark(on: bool, c: char): seq<char> {
    if on then [c] else []
  }

  function ShowFlags(f: Flags): seq<char> {
    Mark(f.left, '-') + Mark(f.plus, '+') + Mark(f.space, ' ') + Mark(f.hash, '#') + Mark(f.zeropad, '0')
  }

  function Decimal(n: nat): seq<char> {
    if n == 0 then ['0'] else C99.Digits(n, 10, false)
  }

  function ShowNumeral(n: Numeral): seq<char> {
    match n
    case Absent => []
    case Given(n) => Decimal(n)
    case Starred(_) => ['*']
  }

  function ShowPrecision(p: Numeral): seq<char> {
    if p.Absent? then [] else ['.'] + ShowNumeral(p)
  }

  function Show(d: Shape): seq<char> {
    ['%'] + (ShowFlags(d.f) + (ShowNumeral(d.width) + (ShowPrecision(d.precision) + (d.length + [d.conv]))))
  }

  /** The arguments that the stars take. */
  function StarArg(n: Numeral): seq<Arg> {
    if n.Starred? then [Num(n.v)] else []
  }

  function StarArgs(d: Shape): seq<Arg> {
    StarArg(d.width) + StarArg(d.precision)
  }

  /** What a numeral stands for, a star for its argument as an int. */
  function Meant(n: Numeral): int {
    match n
    case Absent => 0
    case Given(n) => n
    case Starred(v) => SignedArg(v, UINT)
  }

  /** What a precision makes of flags. */
  function Precise(p: Numeral, f: Flags): Flags {
    f.(precision := !p.Absent? && Meant(p) >= 0)
  }

  /** The specification that a shape stands for: a negative width is a - flag, a negative
      precision is none. */
  function SpecOf(d: Shape, at: nat, k: nat): (r: Spec)
    ensures r.Spec?
  {
    var w, p := Meant(d.width), Meant(d.precision);
    Spec(at, k, Precise(d.precision, d.f.(left := d.f.left || w < 0)), Size(w), if p < 0 then 0 else p, d.length)
  }

  // -------------------------------------------------------------------- pieces

  /** The text t stands in s at position p. */
  predicate Piece(s: seq<char>, p: nat, t: seq<char>) {
    p + |t| <= |s| && s[p..p + |t|] == t
  }

  lemma Pieces(s: seq<char>, p: nat, a: seq<char>, b: seq<char>)
    requires Piece(s, p, a + b)
    ensures Piece(s, p, a) && Piece(s, p + |a|, b)
    ensures |b| > 0 ==> s[p + |a|] == b[0]
  {
    assert s[p..p + |a|] == (a + b)[..|a|];
    assert s[p + |a|..p + |a| + |b|] == (a + b)[|a|..];
    assert |b| > 0 ==> s[p + |a|] == s[p + |a|..p + |a| + |b|][0];
  }

  lemma PieceAll(s: seq<char>, p: nat, t: seq<char>)
    requires Piece(s, p, t)
    ensures forall k :: p <= k < p + |t| ==> s[k] == t[k - p]
  {
    assert forall k :: p <= k < p + |t| ==> s[k] == s[p..p + |t|][k - p];
  }

  lemma {:induction false} RunIs(s: CString, p: nat, end: nat)
    requires p <= end <= |s|
    ensures (forall k :: p <= k < end ==> IsFlag(s[k])) && !IsFlag(At(s, end)) ==> FlagRun(s, p) == end
    ensures (forall k :: p <= k < end ==> IsDigit(s[k])) && !IsDigit(At(s, end)) ==> DigitRun(s, p) == end
    decreases end - p
  {
    if p == end {
    } else {
      RunIs(s, p + 1, end);
    }
  }

  // ------------------------------------------------------------------- decimals

  lemma DecimalDigit(d: nat)
    requires d < 10
    ensures IsDigit(DigitChar(d, false)) && DigitValue(DigitChar(d, false)) == d
  {
  }

  lemma {:induction false} DigitsAre(n: nat)
    ensures forall k :: 0 <= k < |C99.Digits(n, 10, false)| ==> IsDigit(C99.Digits(n, 10, false)[k])
    ensures Read(C99.Digits(n, 10, false), 10) == n
    decreases n
  {
    hide DigitChar, DigitValue, Read, IsDigit;
    if n == 0 {
      ReadNothing([], 10);
    } else {
      var before, c := C99.Digits(n / 10, 10, false), DigitChar(n % 10, false);
      assert C99.Digits(n, 10, false) == before + [c];
      DecimalDigit(n % 10);
      ReadOneMore(before, c, 10);
      DigitsAre(n / 10);
    }
  }

  lemma DecimalIs(n: nat)
    ensures |Decimal(n)| > 0 && Read(Decimal(n), 10) == n
    ensures forall k :: 0 <= k < |Decimal(n)| ==> IsDigit(Decimal(n)[k])
    ensures n > 0 ==> Decimal(n)[0] != '0'
  {
    if n == 0 {
      assert Read(['0'], 10) == Read([], 10) * 10 + 0;
    } else {
      DigitsAre(n);
      C99.FirstDigit(n, 10, false);
    }
  }

  /** A shown number, where no digit follows, is read whole. */
  lemma NumberIs(s: CString, p: nat, n: nat)
    requires Piece(s, p, Decimal(n)) && !IsDigit(At(s, p + |Decimal(n)|))
    ensures DigitRun(s, p) == p + |Decimal(n)| && Read(s[p..DigitRun(s, p)], 10) == n && IsDigit(s[p])
    ensures n > 0 ==> !IsFlag(s[p])
  {
    hide Decimal, Read, DigitRun;
    var t := Decimal(n);
    DecimalIs(n);
    PieceAll(s, p, t);
    RunIs(s, p, p + |t|);
  }

  // --------------------------------------------------------------------- stages

  lemma Shows(f: Flags, c: char)
    ensures c in ShowFlags(f) <==> (c == '-' && f.left) || (c == '+' && f.plus) || (c == ' ' && f.space)
                                   || (c == '#' && f.hash) || (c == '0' && f.zeropad)
  {
  }

  lemma ShownFlags(f: Flags)
    ensures forall k :: 0 <= k < |ShowFlags(f)| ==> IsFlag(ShowFlags(f)[k])
    ensures OnlyWritten(f) ==> FlagsOf(ShowFlags(f)) == f
  {
    hide ShowFlags;
    forall k | 0 <= k < |ShowFlags(f)| ensures IsFlag(ShowFlags(f)[k]) {
      Shows(f, ShowFlags(f)[k]);
    }
    Shows(f, '-');
    Shows(f, '+');
    Shows(f, ' ');
    Shows(f, '#');
    Shows(f, '0');
  }

  lemma FlagStage(s: CString, p: nat, f: Flags)
    requires Piece(s, p, ShowFlags(f)) && !IsFlag(At(s, p + |ShowFlags(f)|))
    ensures FlagRun(s, p) == p + |ShowFlags(f)|
  {
    hide ShowFlags;
    var t := ShowFlags(f);
    ShownFlags(f);
    PieceAll(s, p, t);
    RunIs(s, p, p + |t|);
  }

  /** A character that may follow the width. */
  predicate AfterWidth(c: char) {
    c == '.' || IsLength(c) || IsSpecifier(c)
  }

  lemma NoDigitsHere(s: CString, p: nat)
    requires p <= |s| && !IsDigit(At(s, p))
    ensures DigitRun(s, p) == p && Read(s[p..DigitRun(s, p)], 10) == 0
  {
    assert s[p..p] == [];
  }

  lemma NumeralStage(s: CString, p: nat, n: Numeral, args: seq<Arg>, k: nat)
    requires Piece(s, p, ShowNumeral(n)) && AfterWidth(At(s, p + |ShowNumeral(n)|))
    requires n.Starred? ==> k < |args| && args[k] == Num(n.v)
    ensures NumberOf(s, p, args, k) == Number(Meant(n), p + |ShowNumeral(n)|, k + |StarArg(n)|)
    ensures n != Given(0) ==> !IsFlag(At(s, p))
  {
    hide Decimal, DigitRun, Read, SignedArg, Ten, AsSigned;
    RunNat(s, p);
    match n {
      case Absent => NoDigitsHere(s, p);
      case Given(m) => NumberIs(s, p, m);
      case Starred(_) => PieceAll(s, p, ['*']);
    }
  }

  lemma LengthStage(s: CString, p: nat, t: seq<char>, conv: char)
    requires IsModifier(t) && IsSpecifier(conv) && Piece(s, p, t + [conv])
    ensures LengthEnd(s, p) == p + |t| && s[p..p + |t|] == t && At(s, p + |t|) == conv
    ensures At(s, p) != '.' && (IsLength(At(s, p)) || IsSpecifier(At(s, p)))
  {
    Pieces(s, p, t, [conv]);
    PieceAll(s, p, t);
  }

  lemma PieceIs(s: seq<char>, p: nat, t: seq<char>)
    requires Piece(s, p, t)
    ensures p + |t| <= |s| && s[p..p + |t|] == t
  {
  }

  lemma TailLength(s: CString, p: nat, d: Shape, k: nat, f: Flags, width: nat, precision: nat)
    requires WellFormed(d) && Piece(s, p, d.length + [d.conv])
    ensures p + |d.length| < |s| && s[p + |d.length|] == d.conv && At(s, p) != '.' && AfterWidth(At(s, p))
    ensures WithLength(s, p, k, f, width, precision) == Spec(p + |d.length|, k, f, width, precision, d.length)
  {
    hide LengthEnd, IsModifier, IsSpecifier, Piece, OnlyWritten;
    Pieces(s, p, d.length, [d.conv]);
    PieceIs(s, p, d.length + [d.conv]);
    LengthStage(s, p, d.length, d.conv);
  }

  lemma DotFirst(s: CString, p: nat, t: seq<char>)
    requires Piece(s, p, ['.'] + t)
    ensures p < |s| && At(s, p) == s[p] == '.' && Piece(s, p + 1, t)
  {
    Pieces(s, p, ['.'], t);
    PieceAll(s, p, ['.']);
  }

  lemma WithoutDot(s: CString, i: nat, args: seq<Arg>, k: nat, f: Flags, width: nat)
    requires i <= |s| && At(s, i) != '.'
    ensures WithPrecision(s, i, args, k, f, width) == WithLength(s, i, k, f, width, 0)
  {
  }

  lemma PreciseIs(n: Numeral, f: Flags)
    requires !n.Absent?
    ensures Precise(n, f) == f.(precision := Meant(n) >= 0)
  {
  }

  lemma DottedStage(s: CString, p: nat, n: Numeral, args: seq<Arg>, k: nat, f: Flags, width: nat)
    requires !n.Absent? && !f.precision && Piece(s, p, ['.'] + ShowNumeral(n))
    requires AfterWidth(At(s, p + 1 + |ShowNumeral(n)|)) && (n.Starred? ==> k < |args| && args[k] == Num(n.v))
    ensures At(s, p) == '.' && p + 1 + |ShowNumeral(n)| <= |s|
    ensures WithPrecision(s, p, args, k, f, width)
            == WithLength(s, p + 1 + |ShowNumeral(n)|, k + |StarArg(n)|, Precise(n, f), width,
                          if Meant(n) < 0 then 0 else Meant(n))
  {
    hide ShowNumeral, Piece, NumberOf, WithLength, At, WithPrecision, AfterWidth, Meant, Precise, StarArg;
    var t, q := ShowNumeral(n), Meant(n);
    DotFirst(s, p, t);
    PieceIs(s, p + 1, t);
    NumeralStage(s, p + 1, n, args, k);
    WithDot(s, p, args, k, f, width);
    PreciseIs(n, f);
    assert WithPrecision(s, p, args, k, f, width)
        == WithLength(s, p + 1 + |t|, k + |StarArg(n)|, f.(precision := q >= 0), width, if q < 0 then 0 else q);
  }

  /** The precision, the length and the specifier of a shape, where its tail stands. */
  lemma TailStage(s: CString, p: nat, d: Shape, args: seq<Arg>, k: nat, f: Flags, width: nat)
    requires WellFormed(d) && !f.precision && Piece(s, p, ShowPrecision(d.precision) + (d.length + [d.conv]))
    requires d.precision.Starred? ==> k < |args| && args[k] == Num(d.precision.v)
    ensures var at, q := p + |ShowPrecision(d.precision)| + |d.length|, Meant(d.precision);
            && at < |s| && s[at] == d.conv && AfterWidth(At(s, p))
            && WithPrecision(s, p, args, k, f, width)
               == Spec(at, k + |StarArg(d.precision)|, Precise(d.precision, f), width, if q < 0 then 0 else q, d.length)
  {
    hide ShowNumeral, WellFormed, Piece, SignedArg, WithLength, At, WithPrecision, IsLength, IsSpecifier;
    var c, q := ShowPrecision(d.precision), Meant(d.precision);
    Pieces(s, p, c, d.length + [d.conv]);
    TailLength(s, p + |c|, d, k + |StarArg(d.precision)|, Precise(d.precision, f), width, if q < 0 then 0 else q);
    if d.precision.Absent? {
      WithoutDot(s, p, args, k, f, width);
    } else {
      DottedStage(s, p, d.precision, args, k, f, width);
    }
  }

  lemma ShowPieces(s: seq<char>, i: nat, d: Shape)
    requires Piece(s, i, Show(d))
    ensures var a, b, t := ShowFlags(d.f), ShowNumeral(d.width), ShowPrecision(d.precision) + (d.length + [d.conv]);
            && |Show(d)| == 1 + |a| + |b| + |t|
            && Piece(s, i + 1, a) && Piece(s, i + 1 + |a|, b) && Piece(s, i + 1 + |a| + |b|, t)
  {
    hide ShowFlags, ShowNumeral, ShowPrecision, Piece;
    var a, b, t := ShowFlags(d.f), ShowNumeral(d.width), ShowPrecision(d.precision) + (d.length + [d.conv]);
    Pieces(s, i, ['%'], a + (b + t));
    Pieces(s, i + 1, a, b + t);
    Pieces(s, i + 1 + |a|, b, t);
  }

  /** The next arguments are those of the stars. */
  predicate StarsAt(d: Shape, args: seq<Arg>, k: nat) {
    k + |StarArgs(d)| <= |args| && args[k..k + |StarArgs(d)|] == StarArgs(d)
  }

  lemma StarsAre(d: Shape, args: seq<Arg>, k: nat)
    requires StarsAt(d, args, k)
    ensures d.width.Starred? ==> k < |args| && args[k] == Num(d.width.v)
    ensures var m := k + |StarArg(d.width)|;
            d.precision.Starred? ==> m < |args| && args[m] == Num(d.precision.v)
    ensures |StarArgs(d)| == |StarArg(d.width)| + |StarArg(d.precision)|
  {
    var t := args[k..k + |StarArgs(d)|];
    assert forall j :: 0 <= j < |t| ==> args[k + j] == t[j];
  }

  /** From the width on. */
  lemma WidthStage(s: CString, p: nat, d: Shape, args: seq<Arg>, k: nat)
    requires WellFormed(d) && Piece(s, p, ShowNumeral(d.width)) && StarsAt(d, args, k)
    requires Piece(s, p + |ShowNumeral(d.width)|, ShowPrecision(d.precision) + (d.length + [d.conv]))
    ensures var at := p + |ShowNumeral(d.width)| + |ShowPrecision(d.precision)| + |d.length|;
            && at < |s| && s[at] == d.conv && !IsFlag(At(s, p))
            && WithWidth(s, p, args, k, d.f) == SpecOf(d, at, k + |StarArgs(d)|)
  {
    hide ShowNumeral, ShowPrecision, NumberOf, At, IsModifier, IsSpecifier, WithPrecision, AfterWidth, IsFlag, Piece,
         StarsAt, Meant, StarArgs;
    var b, w := ShowNumeral(d.width), Meant(d.width);
    StarsAre(d, args, k);
    TailStage(s, p + |b|, d, args, k + |StarArg(d.width)|, if w < 0 then d.f.(left := true) else d.f, Size(w));
    NumeralStage(s, p, d.width, args, k);
  }

  /** Whatever surrounds it, a printed directive is read back as what it stands for. */
  lemma SpecRoundTrip(s: CString, i: nat, d: Shape, args: seq<Arg>, k: nat)
    requires WellFormed(d) && Piece(s, i, Show(d)) && StarsAt(d, args, k)
    ensures var at := i + |Show(d)| - 1;
            i < at < |s| && s[at] == d.conv && SpecAt(s, i, args, k) == SpecOf(d, at, k + |StarArgs(d)|)
  {
    hide ShowFlags, ShowNumeral, ShowPrecision, FlagRun, FlagEnd, At, FlagsOf, IsModifier, IsSpecifier, WithWidth,
         IsFlag, Show, Piece, StarsAt, StarArgs, SpecOf, WrittenFlags;
    var a := ShowFlags(d.f);
    ShowPieces(s, i, d);
    WidthStage(s, i + 1 + |a|, d, args, k);
    FlagStage(s, i + 1, d.f);
    ShownFlags(d.f);
    PieceIs(s, i + 1, a);
  }

  lemma SpecPlace(d: Shape, at: nat, k: nat)
    ensures SpecOf(d, at, k).at == at
    ensures WellFormed(d) ==> d.conv != '-'
  {
  }

  /** The parser reads it so too, its numbers modulo the range of printf_size_t. */
  lemma DirectiveRoundTrip(rv64: bool, s: CString, i: nat, d: Shape, args: seq<Arg>, k: nat)
    requires WellFormed(d) && Piece(s, i, Show(d)) && StarsAt(d, args, k)
    ensures var at := i + |Show(d)| - 1;
            i < at < |s| && s[at] == d.conv
            && Parse(rv64, s, i, args, k) == Reading(rv64, SpecOf(d, at, k + |StarArgs(d)|))
  {
    hide Parse, SpecAt, Show, SpecOf, Reading;
    SpecRoundTrip(s, i, d, args, k);
    SpecPlace(d, i + |Show(d)| - 1, k + |StarArgs(d)|);
    ParseAgrees(rv64, s, i, args, k);
  }

  /** A precision that a dash begins is none: its digits are skipped. */
  lemma DashedPrecision(s: CString, i: nat, args: seq<Arg>, k: nat, f: Flags)
    requires i + 1 < |s| && s[i] == '.' && s[i + 1] == '-' && !f.precision && DigitRun(s, i + 2) < |s|
    ensures PrecisionAt(s, i, args, k, f) == Field(DigitRun(s, i + 2), k, f, 0)
  {
    assert f.(precision := false) == f;
  }
}
