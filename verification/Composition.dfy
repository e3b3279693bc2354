/** Formats put together from literal text and printed directives: they render to the texts
    of their parts, one after the other, and to the standard's texts where the parts fit. */
module Composition {
  import opened IntegerText
  import opened Directives
  import opened Grammar
  import opened DirectiveText
  import opened Completeness
  import opened Format
  import opened Fprintf
  import opened Standard

  /** A part of a format, with the arguments that it takes: those of its stars and its own. */
  datatype Part = Literal(t: CString) | Conversion(d: Shape, args: seq<Arg>)

  predicate Good(rv64: bool, part: Part) {
    match part
    case Literal(t) => '%' !in t
    case Conversion(d, args) =>
      var n := |StarArgs(d)|;
      WellFormed(d) && StarsAt(d, args, 0) && |args| == n + Takes(d.conv) && Accepts(rv64, d.conv, args, n)
  }

  function Written(part: Part): seq<char> {
    match part
    case Literal(t) => t
    case Conversion(d, _) => Show(d)
  }

  function ArgsOf(part: Part): seq<Arg> {
    match part
    case Literal(_) => []
    case Conversion(_, args) => args
  }

  /** The specification of a shape on its own. */
  function Alone(d: Shape): (r: Spec)
    ensures r.Spec?
  {
    SpecOf(d, 0, |StarArgs(d)|)
  }

  /** What the code writes for a part. */
  function TextOf(rv64: bool, part: Part): seq<char>
    requires Good(rv64, part)
  {
    match part
    case Literal(t) => t
    case Conversion(d, args) =>
      ConvertIs(rv64, d.conv, Reading(rv64, Alone(d)), args);
      Convert(rv64, d.conv, Reading(rv64, Alone(d)), args).text
  }

  /** A part whose text the standard defines, %n apart. */
  predicate Defined(rv64: bool, part: Part) {
    match part
    case Literal(t) => '%' !in t
    case Conversion(d, args) =>
      && WellFormed(d) && StarsAt(d, args, 0) && d.conv != 'n'
      && ConvertStandard(rv64, d.conv, |Show(d)| == 2, Alone(d), args).Right?
      && ConvertStandard(rv64, d.conv, |Show(d)| == 2, Alone(d), args).k == |args|
  }

  function StandardOf(rv64: bool, part: Part): seq<char>
    requires Defined(rv64, part)
  {
    match part
    case Literal(t) => t
    case Conversion(d, args) => ConvertStandard(rv64, d.conv, |Show(d)| == 2, Alone(d), args).text
  }

  predicate PartFits(rv64: bool, part: Part) {
    part.Conversion? ==> ConversionFits(rv64, part.d.conv, Alone(part.d), part.args)
  }

  function WrittenAll(parts: seq<Part>): seq<char> {
    if |parts| == 0 then [] else Written(parts[0]) + WrittenAll(parts[1..])
  }

  function AllArgs(parts: seq<Part>): seq<Arg> {
    if |parts| == 0 then [] else ArgsOf(parts[0]) + AllArgs(parts[1..])
  }

  function AllText(rv64: bool, parts: seq<Part>): seq<char>
    requires forall part :: part in parts ==> Good(rv64, part)
  {
    if |parts| == 0 then [] else TextOf(rv64, parts[0]) + AllText(rv64, parts[1..])
  }

  function AllStandard(rv64: bool, parts: seq<Part>): seq<char>
    requires forall part :: part in parts ==> Defined(rv64, part)
  {
    if |parts| == 0 then [] else StandardOf(rv64, parts[0]) + AllStandard(rv64, parts[1..])
  }

  // -------------------------------------------------------------------- the parts

  lemma Front<T>(s: seq<T>, i: nat, a: seq<T>, b: seq<T>)
    requires i <= |s| && s[i..] == a + b
    ensures i + |a| <= |s| && s[i..i + |a|] == a && s[i + |a|..] == b
  {
    assert s[i..i + |a|] == s[i..][..|a|];
    assert s[i + |a|..] == s[i..][|a|..];
  }

  lemma PrependTwice(a: seq<char>, b: seq<char>, rest: Rendering)
    ensures Prepend([], rest) == rest && Prepend(a, Prepend(b, rest)) == Prepend(a + b, rest)
  {
    assert rest.SomeText? ==> [] + rest.text == rest.text && a + (b + rest.text) == a + b + rest.text;
  }

  lemma OneLetter(rv64: bool, s: CString, i: nat, args: seq<Arg>, k: nat)
    requires i < |s| && s[i] != '%'
    ensures Render(rv64, s, i, args, k) == Prepend([s[i]], Render(rv64, s, i + 1, args, k))
    ensures RenderStandard(rv64, s, i, args, k) == Prepend([s[i]], RenderStandard(rv64, s, i + 1, args, k))
  {
    hide Prepend;
  }

  /** Literal text renders to itself, by the code and by the standard. */
  lemma {:induction false} LiteralRenders(rv64: bool, s: CString, i: nat, t: seq<char>, args: seq<Arg>, k: nat)
    requires i + |t| <= |s| && s[i..i + |t|] == t && '%' !in t
    ensures Render(rv64, s, i, args, k) == Prepend(t, Render(rv64, s, i + |t|, args, k))
    ensures RenderStandard(rv64, s, i, args, k) == Prepend(t, RenderStandard(rv64, s, i + |t|, args, k))
    decreases |t|
  {
    hide Prepend, Render, RenderStandard;
    var rest, rest' := Render(rv64, s, i + |t|, args, k), RenderStandard(rv64, s, i + |t|, args, k);
    if |t| == 0 {
      PrependTwice([], [], rest);
      PrependTwice([], [], rest');
    } else {
      var c, u := t[0], t[1..];
      assert s[i] == s[i..i + |t|][0] == c && c in t && t == [c] + u;
      assert s[i + 1..i + 1 + |u|] == s[i..i + |t|][1..];
      OneLetter(rv64, s, i, args, k);
      LiteralRenders(rv64, s, i + 1, u, args, k);
      PrependTwice([c], u, rest);
      PrependTwice([c], u, rest');
    }
  }

  /** The arguments own stand among args from k on. */
  predicate Among(args: seq<Arg>, k: nat, own: seq<Arg>) {
    k + |own| <= |args| && args[k..k + |own|] == own
  }

  lemma AmongAt(args: seq<Arg>, k: nat, own: seq<Arg>, j: nat)
    requires Among(args, k, own) && j < |own|
    ensures k + j < |args| && args[k + j] == own[j]
  {
    assert args[k..k + |own|][j] == args[k + j];
  }

  lemma StarsAmong(d: Shape, args: seq<Arg>, k: nat, own: seq<Arg>)
    requires Among(args, k, own) && StarsAt(d, own, 0)
    ensures StarsAt(d, args, k)
  {
    assert args[k..k + |StarArgs(d)|] == args[k..k + |own|][..|StarArgs(d)|];
    assert own[0..|StarArgs(d)|] == own[..|StarArgs(d)|];
  }

  lemma Shifted(rv64: bool, d: Shape, at: nat, k: nat)
    ensures var r, q := Reading(rv64, SpecOf(d, at, k + |StarArgs(d)|)), Reading(rv64, Alone(d));
            && r.f == q.f && r.width == q.width && r.precision == q.precision
            && r.k == k + |StarArgs(d)| && q.k == |StarArgs(d)| && r.at == at
  {
    hide LengthFlags, Meant, StarArgs;
  }

  /** A conversion sees no more of the arguments than its own. */
  lemma ConvertsAlike(rv64: bool, d: Shape, at: nat, k: nat, args: seq<Arg>, own: seq<Arg>)
    requires Among(args, k, own) && |own| == |StarArgs(d)| + Takes(d.conv) && Accepts(rv64, d.conv, own, |StarArgs(d)|)
    ensures var c := Convert(rv64, d.conv, Reading(rv64, SpecOf(d, at, k + |StarArgs(d)|)), args);
            var e := Convert(rv64, d.conv, Reading(rv64, Alone(d)), own);
            c.Right? && e.Right? && c.text == e.text && c.k == k + |own|
  {
    hide IntegerCode, CharOutput, StringOutput, PointerOutput, OutRevText, AddressOf, Value, Reading, SpecOf, Among,
         StarArgs;
    ConvertIs(rv64, d.conv, Reading(rv64, Alone(d)), own);
    Shifted(rv64, d, at, k);
    if Takes(d.conv) > 0 {
      AmongAt(args, k, own, |StarArgs(d)|);
    }
  }

  lemma ArgAlike(rv64: bool, conv: char, d: Spec, e: Spec, arg: Arg)
    requires d.Spec? && e.Spec? && d == e.(at := d.at, k := d.k)
    ensures var c, c' := ConvertArg(rv64, conv, d, arg), ConvertArg(rv64, conv, e, arg);
            (c.Right? <==> c'.Right?) && (c.Right? ==> c.text == c'.text && c.k == d.k + 1 && c'.k == e.k + 1)
  {
    hide C99.Converted, CharStandard, StringStandard, PointerStandard, IntegerValue, TypeRange;
  }

  lemma StandardAlike(rv64: bool, d: Shape, next: bool, at: nat, k: nat, args: seq<Arg>, own: seq<Arg>)
    requires Among(args, k, own) && ConvertStandard(rv64, d.conv, next, Alone(d), own).Right?
    requires ConvertStandard(rv64, d.conv, next, Alone(d), own).k == |own|
    ensures var c := ConvertStandard(rv64, d.conv, next, SpecOf(d, at, k + |StarArgs(d)|), args);
            var e := ConvertStandard(rv64, d.conv, next, Alone(d), own);
            c.Right? && c.text == e.text && c.k == k + |own|
  {
    hide ConvertArg, Among, StarArgs, Meant, Precise;
    if d.conv != '%' {
      AmongAt(args, k, own, |StarArgs(d)|);
      ArgAlike(rv64, d.conv, SpecOf(d, at, k + |StarArgs(d)|), Alone(d), own[|StarArgs(d)|]);
    }
  }

  lemma DirectiveUnfolds(rv64: bool, s: CString, i: nat, args: seq<Arg>, k: nat)
    requires i < |s| && s[i] == '%'
    ensures var d := Parse(rv64, s, i, args, k);
            d.Directive? && d.at < |s| && Convert(rv64, s[d.at], d, args).Right? ==>
              var c := Convert(rv64, s[d.at], d, args);
              Render(rv64, s, i, args, k) == Prepend(c.text, Render(rv64, s, d.at + 1, args, c.k))
  {
    hide Parse, Convert, Prepend;
  }

  lemma StandardUnfolds(rv64: bool, s: CString, i: nat, args: seq<Arg>, k: nat)
    requires i < |s| && s[i] == '%'
    ensures var d := SpecAt(s, i, args, k);
            d.Spec? && ConvertStandard(rv64, s[d.at], d.at == i + 1, d, args).Right? ==>
              var c := ConvertStandard(rv64, s[d.at], d.at == i + 1, d, args);
              RenderStandard(rv64, s, i, args, k) == Prepend(c.text, RenderStandard(rv64, s, d.at + 1, args, c.k))
  {
    hide SpecAt, ConvertStandard, Prepend;
  }

  lemma BeginsWithPercent(s: seq<char>, i: nat, d: Shape)
    requires Piece(s, i, Show(d))
    ensures i < |s| && s[i] == '%'
  {
    hide ShowFlags, ShowNumeral, ShowPrecision;
    PieceAll(s, i, Show(d));
  }

  /** A printed directive renders to the text of its conversion. */
  lemma DirectiveRenders(rv64: bool, s: CString, i: nat, part: Part, args: seq<Arg>, k: nat)
    requires part.Conversion? && Good(rv64, part) && Piece(s, i, Show(part.d)) && Among(args, k, part.args)
    ensures i + |Show(part.d)| <= |s|
    ensures Render(rv64, s, i, args, k)
            == Prepend(TextOf(rv64, part), Render(rv64, s, i + |Show(part.d)|, args, k + |part.args|))
  {
    hide Parse, Convert, WellFormed, Accepts, Takes, Render, Show, Prepend, Piece, Among, StarsAt, SpecOf, Alone,
         StarArgs, Reading;
    var d, at := part.d, i + |Show(part.d)| - 1;
    StarsAmong(d, args, k, part.args);
    DirectiveRoundTrip(rv64, s, i, d, args, k);
    ConvertsAlike(rv64, d, at, k, args, part.args);
    Shifted(rv64, d, at, k);
    BeginsWithPercent(s, i, d);
    DirectiveUnfolds(rv64, s, i, args, k);
  }

  lemma PartRenders(rv64: bool, s: CString, i: nat, part: Part, args: seq<Arg>, k: nat)
    requires Good(rv64, part) && Piece(s, i, Written(part)) && Among(args, k, ArgsOf(part))
    ensures i + |Written(part)| <= |s|
    ensures Render(rv64, s, i, args, k)
            == Prepend(TextOf(rv64, part), Render(rv64, s, i + |Written(part)|, args, k + |ArgsOf(part)|))
  {
    hide Show, Parse, Convert, WellFormed, Accepts, Takes, Render, Among, StarsAt;
    match part
    case Literal(t) => LiteralRenders(rv64, s, i, t, args, k);
    case Conversion(_, _) => DirectiveRenders(rv64, s, i, part, args, k);
  }

  /** The standard gives a printed directive the text of its conversion. */
  lemma PartStandard(rv64: bool, s: CString, i: nat, part: Part, args: seq<Arg>, k: nat)
    requires Defined(rv64, part) && Piece(s, i, Written(part)) && Among(args, k, ArgsOf(part))
    ensures i + |Written(part)| <= |s|
    ensures RenderStandard(rv64, s, i, args, k)
            == Prepend(StandardOf(rv64, part), RenderStandard(rv64, s, i + |Written(part)|, args, k + |ArgsOf(part)|))
  {
    hide SpecAt, ConvertStandard, WellFormed, RenderStandard, Show, Prepend, Among, StarsAt, SpecOf, Alone, StarArgs;
    match part {
      case Literal(t) => LiteralRenders(rv64, s, i, t, args, k);
      case Conversion(d, own) =>
        var at := i + |Show(d)| - 1;
        StarsAmong(d, args, k, own);
        SpecRoundTrip(s, i, d, args, k);
        SpecPlace(d, at, k + |StarArgs(d)|);
        StandardAlike(rv64, d, |Show(d)| == 2, at, k, args, own);
        BeginsWithPercent(s, i, d);
        StandardUnfolds(rv64, s, i, args, k);
    }
  }

  lemma NothingLeft(rv64: bool, s: CString, args: seq<Arg>, k: nat)
    ensures Render(rv64, s, |s|, args, k) == RenderStandard(rv64, s, |s|, args, k) == SomeText([])
  {
  }

  /** The rest of a format that is put together from parts renders to their texts. */
  lemma {:induction false} PartsRender(rv64: bool, s: CString, i: nat, parts: seq<Part>, args: seq<Arg>, k: nat)
    requires forall part :: part in parts ==> Good(rv64, part)
    requires i <= |s| && s[i..] == WrittenAll(parts) && k <= |args| && args[k..] == AllArgs(parts)
    ensures Render(rv64, s, i, args, k) == SomeText(AllText(rv64, parts))
    decreases |parts|
  {
    hide Good, TextOf, Written, ArgsOf, Render;
    if |parts| == 0 {
      NothingLeft(rv64, s, args, k);
    } else {
      var part, rest := parts[0], parts[1..];
      Front(s, i, Written(part), WrittenAll(rest));
      Front(args, k, ArgsOf(part), AllArgs(rest));
      PartsRender(rv64, s, i + |Written(part)|, rest, args, k + |ArgsOf(part)|);
      PartRenders(rv64, s, i, part, args, k);
    }
  }

  lemma {:induction false} PartsStandard(rv64: bool, s: CString, i: nat, parts: seq<Part>, args: seq<Arg>, k: nat)
    requires forall part :: part in parts ==> Defined(rv64, part)
    requires i <= |s| && s[i..] == WrittenAll(parts) && k <= |args| && args[k..] == AllArgs(parts)
    ensures RenderStandard(rv64, s, i, args, k) == SomeText(AllStandard(rv64, parts))
    decreases |parts|
  {
    hide Defined, StandardOf, Written, ArgsOf, RenderStandard;
    if |parts| == 0 {
      NothingLeft(rv64, s, args, k);
    } else {
      var part, rest := parts[0], parts[1..];
      Front(s, i, Written(part), WrittenAll(rest));
      Front(args, k, ArgsOf(part), AllArgs(rest));
      PartsStandard(rv64, s, i + |Written(part)|, rest, args, k + |ArgsOf(part)|);
      PartStandard(rv64, s, i, part, args, k);
    }
  }

  /** A format written from parts has a text: the texts of its parts, one after the other. */
  lemma WrittenFormat(rv64: bool, s: CString, parts: seq<Part>)
    requires forall part :: part in parts ==> Good(rv64, part)
    requires s == WrittenAll(parts)
    ensures Render(rv64, s, 0, AllArgs(parts), 0) == SomeText(AllText(rv64, parts))
    ensures Complete(s, 0) && Supplied(rv64, s, 0, AllArgs(parts), 0)
  {
    hide Good, Render, Complete, Supplied;
    assert s[0..] == s && AllArgs(parts)[0..] == AllArgs(parts);
    PartsRender(rv64, s, 0, parts, AllArgs(parts), 0);
    RendersIff(rv64, s, 0, AllArgs(parts), 0);
  }

  /** The standard gives it the standard's texts of its parts. */
  lemma WrittenStandard(rv64: bool, s: CString, parts: seq<Part>)
    requires forall part :: part in parts ==> Defined(rv64, part)
    requires s == WrittenAll(parts)
    ensures RenderStandard(rv64, s, 0, AllArgs(parts), 0) == SomeText(AllStandard(rv64, parts))
  {
    hide Defined, RenderStandard;
    assert s[0..] == s && AllArgs(parts)[0..] == AllArgs(parts);
    PartsStandard(rv64, s, 0, parts, AllArgs(parts), 0);
  }

  // ------------------------------------------------------------------- conformance

  lemma AloneIsPlain(d: Shape)
    requires WellFormed(d)
    ensures Plain(Alone(d).f) && (!Alone(d).f.precision ==> Alone(d).precision == 0)
    ensures Alone(d).k == |StarArgs(d)|
  {
    hide IsModifier, IsSpecifier, StarArgs, SignedArg;
  }

  lemma AloneReads(rv64: bool, d: Shape)
    ensures Reading(rv64, Alone(d)).k == |StarArgs(d)|
  {
    hide LengthFlags, StarArgs, Meant;
  }

  /** A part whose text the standard defines has one in the code too, and it is the standard's
      exactly when the part fits; never longer, strings beyond counting apart. */
  lemma PartConforms(rv64: bool, part: Part)
    requires Defined(rv64, part)
    ensures Good(rv64, part) && (TextOf(rv64, part) == StandardOf(rv64, part) <==> PartFits(rv64, part))
    ensures Countable(ArgsOf(part)) ==> |TextOf(rv64, part)| <= |StandardOf(rv64, part)|
  {
    hide WellFormed, Alone, StarsAt, Reading, Convert, ConvertStandard, Accepts, Takes, ConversionFits, Countable, Show,
         StarArgs, Plain;
    match part {
      case Literal(_) =>
      case Conversion(d, args) =>
        AloneIsPlain(d);
        AloneReads(rv64, d);
        ConvertIs(rv64, d.conv, Reading(rv64, Alone(d)), args);
        ConversionConforms(rv64, d.conv, |Show(d)| == 2, Alone(d), args);
    }
  }

  /** Texts that the standard defines for all parts are the code's exactly when all fit. */
  lemma {:induction false} TextsConform(rv64: bool, parts: seq<Part>)
    requires forall part :: part in parts ==> Defined(rv64, part)
    ensures forall part :: part in parts ==> Good(rv64, part)
    ensures (forall part :: part in parts ==> PartFits(rv64, part)) ==> AllText(rv64, parts) == AllStandard(rv64, parts)
    ensures (forall part :: part in parts ==> Countable(ArgsOf(part))) ==>
              |AllText(rv64, parts)| <= |AllStandard(rv64, parts)|
              && (AllText(rv64, parts) == AllStandard(rv64, parts) ==>
                    forall part :: part in parts ==> PartFits(rv64, part))
  {
    hide Good, TextOf, StandardOf, Defined, PartFits, Countable, ArgsOf;
    if |parts| == 0 {
    } else {
      PartConforms(rv64, parts[0]);
      TextsConform(rv64, parts[1..]);
      assert parts[0] in parts && forall part :: part in parts <==> part == parts[0] || part in parts[1..];
      if forall part :: part in parts ==> Countable(ArgsOf(part)) {
        SamePieces(TextOf(rv64, parts[0]), AllText(rv64, parts[1..]),
                   StandardOf(rv64, parts[0]), AllStandard(rv64, parts[1..]));
      }
    }
  }

  /** A format written from parts that the standard defines and that fit renders to the
      standard's texts of its parts; where every string can be counted, it does not otherwise. */
  lemma WrittenConforms(rv64: bool, s: CString, parts: seq<Part>)
    requires forall part :: part in parts ==> Defined(rv64, part)
    requires s == WrittenAll(parts)
    ensures Complete(s, 0) && Supplied(rv64, s, 0, AllArgs(parts), 0)
    ensures RenderStandard(rv64, s, 0, AllArgs(parts), 0) == SomeText(AllStandard(rv64, parts))
    ensures (forall part :: part in parts ==> PartFits(rv64, part)) ==>
              Render(rv64, s, 0, AllArgs(parts), 0) == SomeText(AllStandard(rv64, parts))
    ensures (forall part :: part in parts ==> Countable(ArgsOf(part))) ==>
              (Render(rv64, s, 0, AllArgs(parts), 0) == SomeText(AllStandard(rv64, parts))
               <==> forall part :: part in parts ==> PartFits(rv64, part))
  {
    hide Good, Defined, PartFits, Countable, ArgsOf, Render, RenderStandard, Complete, Supplied, AllText, AllStandard,
         AllArgs, WrittenAll;
    TextsConform(rv64, parts);
    WrittenFormat(rv64, s, parts);
    WrittenStandard(rv64, s, parts);
  }
}
