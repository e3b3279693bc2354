/** Which formats the loop of sdk/librv/printf.c reads to their end and no further. After
    flags or a number it does not look for the terminator again, so a directive that the
    format cuts off there makes it step over the terminator. */
module Completeness {
  import opened IntegerText
  import opened Directives

  // --------------------------------------------------- directives cut off, as text

  predicate AllFlags(s: CString, lo: nat, hi: nat) {
    lo <= hi <= |s| && forall k :: lo <= k < hi ==> IsFlag(s[k])
  }

  predicate AllDigits(s: CString, lo: nat, hi: nat) {
    lo <= hi <= |s| && forall k :: lo <= k < hi ==> IsDigit(s[k])
  }

  /** A width: digits, perhaps none, or a star. */
  predicate WidthText(s: CString, lo: nat, hi: nat) {
    AllDigits(s, lo, hi) || (hi == lo + 1 && hi <= |s| && s[lo] == '*')
  }

  /** The rest of the format is nothing, or a dot and some digits. */
  predicate CutPrecision(s: CString, at: nat) {
    at == |s| || (at + 1 < |s| && s[at] == '.' && AllDigits(s, at + 1, |s|))
  }

  /** The format ends, right after a flag or a digit, inside the directive whose percent sign
      is at i: flags, a width, and perhaps a dot and digits are all that follows. */
  predicate EndsInside(s: CString, i: nat)
    requires i < |s|
  {
    && i + 1 < |s| && (IsFlag(s[|s| - 1]) || IsDigit(s[|s| - 1]))
    && exists p: nat, q: nat :: p <= |s| && q <= |s| &&
         AllFlags(s, i + 1, p) && WidthText(s, p, q) && CutPrecision(s, q)
  }

  // ------------------------------------------------------ where a directive leads

  function WidthEnd(s: CString, i: nat): (j: nat)
    requires i <= |s|
    ensures i <= j <= |s|
  {
    if At(s, i) == '*' then i + 1 else DigitRun(s, i)
  }

  function PrecisionEnd(s: CString, i: nat): (j: nat)
    requires i <= |s|
    ensures i <= j <= |s|
  {
    if At(s, i) != '.' then i
    else if i + 1 == |s| then |s|
    else if s[i + 1] == '-' then DigitRun(s, i + 2)
    else if s[i + 1] == '*' then i + 2
    else DigitRun(s, i + 1)
  }

  /** The position of the specifier of the directive at i. */
  function SpecifierAt(s: CString, i: nat): (j: nat)
    requires i < |s|
    ensures i < j <= |s|
  {
    LengthEnd(s, PrecisionEnd(s, WidthEnd(s, FlagRun(s, i + 1))))
  }

  /** How many of its fields are stars. */
  function Stars(s: CString, i: nat): nat
    requires i < |s|
  {
    var j := FlagRun(s, i + 1);
    var w := WidthEnd(s, j);
    (if At(s, j) == '*' then 1 else 0) + (if At(s, w) == '.' && At(s, w + 1) == '*' then 1 else 0)
  }

  /** No directive from i on is cut off: what a caller can check of a format. */
  predicate Complete(s: CString, i: nat)
    requires i <= |s|
    decreases |s| - i
  {
    if i == |s| then true
    else if s[i] != '%' then Complete(s, i + 1)
    else !EndsInside(s, i) && (SpecifierAt(s, i) < |s| ==> Complete(s, SpecifierAt(s, i) + 1))
  }

  // -------------------------------------------------------------------- arguments

  predicate IsNum(args: seq<Arg>, k: int) {
    0 <= k < |args| && args[k].Num?
  }

  /** Integers for n stars, from argument k on. */
  predicate Nums(args: seq<Arg>, k: nat, n: nat)
    decreases n
  {
    n == 0 || (IsNum(args, k) && Nums(args, k + 1, n - 1))
  }

  // -------------------------------------------------------------------- the lemmas

  lemma {:induction false} FlagRunFrom(s: CString, i: nat, p: nat)
    requires AllFlags(s, i, p)
    ensures FlagRun(s, i) == FlagRun(s, p)
    decreases p - i
  {
    if i < p {
      FlagRunFrom(s, i + 1, p);
    }
  }

  lemma {:induction false} DigitRunFrom(s: CString, i: nat, p: nat)
    requires AllDigits(s, i, p)
    ensures DigitRun(s, i) == DigitRun(s, p)
    decreases p - i
  {
    if i < p {
      DigitRunFrom(s, i + 1, p);
    }
  }

  /** Digits from here end the format. */
  predicate DigitsEnd(s: CString, i: nat) {
    i < |s| && IsDigit(s[i]) && DigitRun(s, i) == |s|
  }

  lemma NumsAdd(args: seq<Arg>, k: nat, a: nat, b: nat)
    ensures Nums(args, k, a + b) <==> Nums(args, k, a) && Nums(args, k + a, b)
    decreases a
  {
    if a > 0 {
      NumsAdd(args, k + 1, a - 1, b);
    }
  }

  /** The parser's reading of a cut-off directive: the longest runs. */
  predicate RunsOut(s: CString, i: nat)
    requires i < |s|
  {
    var j := FlagRun(s, i + 1);
    var w := WidthEnd(s, j);
    && i + 1 < |s|
    && if w == |s| then At(s, j) != '*' else s[w] == '.' && DigitsEnd(s, w + 1)
  }

  lemma RunsOutEnds(s: CString, i: nat)
    requires i < |s| && RunsOut(s, i)
    ensures EndsInside(s, i)
  {
    var j := FlagRun(s, i + 1);
    var w := WidthEnd(s, j);
    assert AllFlags(s, i + 1, j) && WidthText(s, j, w) && CutPrecision(s, w);
  }

  /** Zeros at the head of a width are taken for flags; the width still ends where it ends. */
  lemma {:induction false} FlagsThenDigits(s: CString, p: nat, q: nat)
    requires AllDigits(s, p, q) && CutPrecision(s, q)
    ensures p <= FlagRun(s, p) <= q && DigitRun(s, FlagRun(s, p)) == q && At(s, FlagRun(s, p)) != '*'
    decreases q - p
  {
    if p < q && IsFlag(s[p]) {
      FlagsThenDigits(s, p + 1, q);
    } else {
      DigitRunFrom(s, p, q);
    }
  }

  lemma CutRunsOut(s: CString, i: nat, p: nat, q: nat)
    requires i + 1 < |s| && (IsFlag(s[|s| - 1]) || IsDigit(s[|s| - 1])) && p <= |s| && q <= |s|
    requires AllFlags(s, i + 1, p) && WidthText(s, p, q) && CutPrecision(s, q)
    ensures RunsOut(s, i)
  {
    var j, n := FlagRun(s, i + 1), |s|;
    FlagRunFrom(s, i + 1, p);
    if q == p + 1 && s[p] == '*' {
      assert FlagRun(s, p) == p;
    } else {
      FlagsThenDigits(s, p, q);
    }
    assert WidthEnd(s, j) == q;
    if q < n {
      DigitRunFrom(s, q + 1, n);
    }
  }

  lemma EndsRunsOut(s: CString, i: nat)
    requires i < |s| && EndsInside(s, i)
    ensures RunsOut(s, i)
  {
    var p: nat, q: nat :| p <= |s| && q <= |s| && AllFlags(s, i + 1, p) && WidthText(s, p, q) && CutPrecision(s, q);
    CutRunsOut(s, i, p, q);
  }

  lemma WidthIs(s: CString, i: nat, args: seq<Arg>, k: nat, f: Flags)
    requires i <= |s|
    ensures var r, n := WidthAt(s, i, args, k, f), if At(s, i) == '*' then 1 else 0;
            && (r.Undefined? <==> !Nums(args, k, n))
            && (r.Field? ==> r.i == WidthEnd(s, i) && r.k == k + n && !(n == 1 && r.i == |s|))
            && (r.Returned? ==> n == 1 && WidthEnd(s, i) == |s|)
  {
    hide SignedArg, NumberAt;
  }

  lemma PrecisionIs(s: CString, i: nat, args: seq<Arg>, k: nat, f: Flags)
    requires i <= |s|
    ensures var r, n := PrecisionAt(s, i, args, k, f), if At(s, i) == '.' && At(s, i + 1) == '*' then 1 else 0;
            && (r.Undefined? <==> !Nums(args, k, n))
            && (r.Field? ==> r.i == PrecisionEnd(s, i) && r.k == k + n)
            && (r.Field? && i < |s| ==> (r.i == |s| <==> s[i] == '.' && DigitsEnd(s, i + 1)))
            && (r.Returned? ==> i < |s| && PrecisionEnd(s, i) == |s| && !DigitsEnd(s, i + 1))
  {
    hide SignedArg, NumberAt;
  }

  /** What the parser makes of the text of a directive: it lacks an argument where a star has
      no integer, it comes to the specifier otherwise, and that is the terminator itself
      where the directive is cut off. */
  lemma ParseIs(rv64: bool, s: CString, i: nat, args: seq<Arg>, k: nat)
    requires i < |s|
    ensures var d, n := Parse(rv64, s, i, args, k), Stars(s, i);
            && (d.Unspecified? <==> !Nums(args, k, n))
            && (d.Directive? ==> d.at == SpecifierAt(s, i) && d.k == k + n)
            && (d.Ended? ==> SpecifierAt(s, i) == |s|)
            && (!d.Unspecified? ==> (d.Directive? && d.at == |s| <==> RunsOut(s, i)))
  {
    hide WidthAt, PrecisionAt, WidthEnd, PrecisionEnd, FlagsOf, LengthFlags, DigitRun;
    if i + 1 < |s| {
      var j := FlagRun(s, i + 1);
      var f := FlagsOf(s[i + 1..j]);
      WidthIs(s, j, args, k, f);
      var w := WidthAt(s, j, args, k, f);
      var n := if At(s, j) == '*' then 1 else 0;
      NumsAdd(args, k, n, Stars(s, i) - n);
      if w.Field? {
        PrecisionIs(s, w.i, args, w.k, w.f);
      }
    }
  }

  /** With integers for its stars, a directive makes the loop take the terminator for its
      specifier if and only if the format ends inside it after a flag or a digit. */
  lemma CutOff(rv64: bool, s: CString, i: nat, args: seq<Arg>, k: nat)
    requires i < |s| && Nums(args, k, Stars(s, i))
    ensures var d := Parse(rv64, s, i, args, k);
            d.Directive? && d.at == |s| <==> EndsInside(s, i)
  {
    hide Parse, EndsInside, RunsOut, Nums, Stars;
    ParseIs(rv64, s, i, args, k);
    if EndsInside(s, i) {
      EndsRunsOut(s, i);
    }
    if RunsOut(s, i) {
      RunsOutEnds(s, i);
    }
  }
}
