/** Integer conversion in sdk/librv/printf.c: print_integer, print_integer_finalization
    and out_rev_, with the text that they emit. */
module IntegerText {
  import opened Words
  import opened Output

  const ROOM := 32  // PRINTF_INTEGER_BUFFER_SIZE

  /** The bits of printf_flags_t that the integer configuration uses. */
  datatype Flags = Flags(zeropad: bool, left: bool, plus: bool, space: bool, hash: bool, upper: bool,
                         chr: bool, short: bool, long: bool, longLong: bool, precision: bool,
                         pointer: bool)

  const NO_FLAGS := Flags(false, false, false, false, false, false, false, false, false, false, false, false)

  // ------------------------------------------------------------------- pieces

  function Repeat(c: char, n: int): (s: seq<char>)
    ensures |s| == if n < 0 then 0 else n
  {
    if n <= 0 then [] else Repeat(c, n - 1) + [c]
  }

  function Reverse(s: seq<char>): (r: seq<char>)
    ensures |r| == |s|
  {
    if |s| == 0 then [] else Reverse(s[1..]) + [s[0]]
  }

  function DigitChar(d: nat, upper: bool): (c: char)
    requires d < 16
    ensures c != ' '
  {
    if d < 10 then ('0' as int + d) as char
    else ((if upper then 'A' else 'a') as int + d - 10) as char
  }

  /** The digits of v, least significant first, as many as there is room for. */
  function RevDigits(v: nat, base: nat, upper: bool, room: nat): (s: seq<char>)
    requires 2 <= base <= 16
    ensures |s| <= room
    decreases room
  {
    if v == 0 || room == 0 then [] else [DigitChar(v % base, upper)] + RevDigits(v / base, base, upper, room - 1)
  }

  /** Leading zeros (at the end of a reversed number) up to a length, as room permits. */
  function Fill(buf: seq<char>, upTo: int): seq<char> {
    buf + Repeat('0', Min(upTo, ROOM) - |buf|)
  }

  function Append(buf: seq<char>, c: char): seq<char> {
    if |buf| < ROOM then buf + [c] else buf
  }

  /** Padding zeros given back to make place for a prefix. */
  function TakeBack(len: nat, unpadded: nat, base: nat): (l: nat)
    requires unpadded <= len
    ensures unpadded <= l <= len
  {
    var l := if unpadded < len then len - 1 else len;
    if l > 0 && (base == 16 || base == 2) && unpadded < l then l - 1 else l
  }

  function Prefixed(buf: seq<char>, base: nat, upper: bool): seq<char> {
    Append(if base == 16 then Append(buf, if upper then 'X' else 'x')
           else if base == 2 then Append(buf, 'b') else buf, '0')
  }

  /** How much of a padded number stays once zeros that fill the field made place for a prefix. */
  function Kept(padded: nat, unpadded: nat, base: nat, precision: nat, width: nat, f: Flags): (k: nat)
    requires unpadded <= padded
    ensures unpadded <= k <= padded
  {
    if !f.precision && padded > 0 && (padded == precision || padded == width)
    then TakeBack(padded, unpadded, base) else padded
  }

  function WithSign(buf: seq<char>, negative: bool, f: Flags): seq<char> {
    if negative then Append(buf, '-')
    else if f.plus then Append(buf, '+')
    else if f.space then Append(buf, ' ')
    else buf
  }

  /** The width that is left for zeros once a sign is to come. */
  function ZeroWidth(negative: bool, width: nat, f: Flags): (w: nat)
    ensures w <= width
  {
    if !f.left && width > 0 && f.zeropad && (negative || f.plus || f.space) then width - 1 else width
  }

  /** The digits with the zeros of a zero-padded width or of a precision. */
  function PaddedNumber(buf: seq<char>, precision: nat, width: nat, f: Flags): (s: seq<char>)
    ensures |buf| <= |s|
  {
    Fill(if !f.left && f.zeropad then Fill(buf, width) else buf, precision)
  }

  /** The number with its prefix, if it takes one. */
  function Alternative(padded: seq<char>, unpadded: nat, base: nat, precision: nat, width: nat, f: Flags): seq<char>
    requires unpadded <= |padded|
  {
    if f.hash || f.pointer
    then Prefixed(padded[..Kept(|padded|, unpadded, base, precision, width, f)], base, f.upper)
    else padded
  }

  /** The reversed buffer that print_integer_finalization hands to out_rev_. */
  function Finalized(buf: seq<char>, negative: bool, base: nat, precision: nat, fieldWidth: nat, f: Flags): seq<char> {
    var width := ZeroWidth(negative, fieldWidth, f);
    var padded := PaddedNumber(buf, precision, width, f);
    var g := if base == 8 && |padded| > |buf| then f.(hash := false) else f;
    WithSign(Alternative(padded, |buf|, base, precision, width, g), negative, f)
  }

  /** out_rev_: the text in order, with its padding spaces. */
  function OutRevText(buf: seq<char>, width: nat, left: bool, zeropad: bool): seq<char> {
    (if !left && !zeropad then Repeat(' ', width - |buf|) else [])
    + Reverse(buf)
    + (if left then Repeat(' ', width - |buf|) else [])
  }

  /** The digits print_integer puts first, and the flags it goes on with. */
  function FirstDigits(v: nat, base: nat, f: Flags): seq<char>
    requires 2 <= base <= 16
  {
    if v == 0 then (if f.precision then [] else ['0']) else RevDigits(v, base, f.upper, ROOM)
  }

  function FirstFlags(v: nat, base: nat, f: Flags): (g: Flags)
    ensures g.left == f.left && g.zeropad == f.zeropad
  {
    if v == 0 && (!f.precision || base == 16) then f.(hash := false) else f
  }

  /** The base of an integer conversion. */
  function Base(conv: char): nat {
    if conv == 'x' || conv == 'X' then 16 else if conv == 'o' then 8 else if conv == 'b' then 2 else 10
  }

  predicate TakesSigned(conv: char) {
    conv == 'd' || conv == 'i'
  }

  /** The flags that an integer conversion hands to print_integer. */
  function Settled(conv: char, f: Flags): Flags {
    f.(hash := f.hash && Base(conv) != 10,
       upper := f.upper || conv == 'X',
       zeropad := f.zeropad && !f.precision,
       plus := f.plus && TakesSigned(conv),
       space := f.space && TakesSigned(conv))
  }

  /** Everything print_integer emits. */
  function IntegerCode(v: nat, negative: bool, base: nat, precision: nat, width: nat, f: Flags): seq<char>
    requires 2 <= base <= 16
  {
    var g := FirstFlags(v, base, f);
    OutRevText(Finalized(FirstDigits(v, base, f), negative, base, precision, width, g), ZeroWidth(negative, width, g),
               f.left, f.zeropad)
  }

  // ------------------------------------------------------------------- lemmas

  lemma RepeatFront(c: char, n: nat)
    ensures Repeat(c, n + 1) == [c] + Repeat(c, n)
  {
    if n > 0 {
      RepeatFront(c, n - 1);
    }
  }

  lemma {:induction false} ReverseAppend(a: seq<char>, b: seq<char>)
    ensures Reverse(a + b) == Reverse(b) + Reverse(a)
  {
    if |a| == 0 {
      assert a + b == b;
    } else {
      assert (a + b)[1..] == a[1..] + b;
      ReverseAppend(a[1..], b);
    }
  }

  lemma {:induction false} ReverseRepeat(c: char, n: int)
    ensures Reverse(Repeat(c, n)) == Repeat(c, n)
  {
    if n <= 0 {
    } else {
      ReverseAppend(Repeat(c, n - 1), [c]);
      assert Reverse([c]) == [c];
      ReverseRepeat(c, n - 1);
      RepeatFront(c, n - 1);
    }
  }

  lemma PositionSince(start: seq<char>, now: seq<char>)
    requires |start| <= |now| && |now| - |start| < UINT
    ensures (|now| % UINT - |start| % UINT) % UINT == |now| - |start|
  {
    var k := |now| / UINT - |start| / UINT;
    DivModUnique(|now| % UINT - |start| % UINT, UINT, -k, |now| - |start|);
  }

  // ----------------------------------------------------------------- the methods

  /** Spaces while the count l is below the width. */
  method PadTo(g: Gadget, from: nat, width: nat)
    requires g.Valid()
    modifies g, g.buffer
    ensures g.Valid() && g.out == old(g.out) + Repeat(' ', width - from)
  {
    hide Deposit, Accepted;
    var l := from;
    while l < width
      invariant from <= l && (l <= width || l == from)
      invariant g.Valid() && g.out == old(g.out) + Repeat(' ', l - from)
    {
      g.Put(' ');
      l := l + 1;
    }
  }

  method PutReversed(g: Gadget, buf: seq<char>)
    requires g.Valid()
    modifies g, g.buffer
    ensures g.Valid() && g.out == old(g.out) + Reverse(buf)
  {
    hide Deposit, Accepted;
    var len := |buf|;
    while len > 0
      invariant 0 <= len <= |buf|
      invariant g.Valid() && g.out == old(g.out) + Reverse(buf[len..])
    {
      len := len - 1;
      assert buf[len..][1..] == buf[len + 1..];
      g.Put(buf[len]);
    }
    assert buf[0..] == buf;
  }

  /** Spaces until the gadget is width positions past a start, in wrapping arithmetic. */
  method PadSince(g: Gadget, startPos: nat, ghost start: seq<char>, width: nat)
    requires g.Valid() && startPos == |start| % UINT && width < UINT
    requires |start| <= |g.out| < |start| + UINT
    modifies g, g.buffer
    ensures g.Valid() && g.out == old(g.out) + Repeat(' ', width - (|old(g.out)| - |start|))
  {
    hide Deposit, Accepted;
    ghost var len := |g.out| - |start|;
    ghost var k := 0;
    PositionSince(start, g.out);
    while (g.pos - startPos) % UINT < width
      invariant g.Valid() && g.out == old(g.out) + Repeat(' ', k)
      invariant k == 0 || len + k <= width
      invariant (g.pos - startPos) % UINT == len + k
      decreases width - (len + k)
    {
      g.Put(' ');
      k := k + 1;
      PositionSince(start, g.out);
    }
  }

  /** out_rev_. */
  method OutRev(g: Gadget, buf: seq<char>, width: nat, f: Flags)
    requires g.Valid() && |buf| < UINT && width < UINT
    modifies g, g.buffer
    ensures g.Valid() && g.out == old(g.out) + OutRevText(buf, width, f.left, f.zeropad)
  {
    hide Deposit, Accepted, Repeat, Reverse;
    var startPos := g.pos;
    ghost var start := g.out;
    if !f.left && !f.zeropad {
      PadTo(g, |buf|, width);
    }
    PutReversed(g, buf);
    if f.left {
      PadSince(g, startPos, start, width);
    }
  }

  /** Zeros after the digits, up to a length and while there is room. */
  method PadZeros(buf: array<char>, from: nat, upTo: nat) returns (len: nat)
    requires buf.Length == ROOM && from <= ROOM
    modifies buf
    ensures len <= ROOM && buf[..len] == Fill(old(buf[..from]), upTo)
  {
    len := from;
    while len < upTo && len < ROOM
      invariant from <= len <= ROOM && (len == from || len <= upTo)
      invariant buf[..len] == old(buf[..from]) + Repeat('0', len - from)
    {
      buf[len] := '0';
      len := len + 1;
    }
  }

  method Push(buf: array<char>, at: nat, c: char) returns (len: nat)
    requires buf.Length == ROOM && at <= ROOM
    modifies buf
    ensures len <= ROOM && buf[..len] == Append(old(buf[..at]), c)
  {
    len := at;
    if len < ROOM {
      buf[len] := c;
      len := len + 1;
    }
  }

  /** The block of print_integer_finalization that pads with leading zeros. */
  method PadNumber(buf: array<char>, digits: nat, negative: bool, precision: nat, fieldWidth: nat, f: Flags)
    returns (len: nat, width: nat)
    requires buf.Length == ROOM && digits <= ROOM
    modifies buf
    ensures width == ZeroWidth(negative, fieldWidth, f) && digits <= len <= ROOM
    ensures buf[..len] == PaddedNumber(old(buf[..digits]), precision, width, f)
  {
    hide Repeat, Min;
    len, width := digits, fieldWidth;
    if !f.left {
      if width > 0 && f.zeropad && (negative || f.plus || f.space) {
        width := width - 1;
      }
      if f.zeropad {
        len := PadZeros(buf, len, width);
      }
    }
    len := PadZeros(buf, len, precision);
  }

  /** The first half of the alternative form: padding given back. */
  method GiveBack(padded: nat, unpadded: nat, base: nat, precision: nat, width: nat, f: Flags) returns (len: nat)
    requires unpadded <= padded
    ensures len == Kept(padded, unpadded, base, precision, width, f)
  {
    len := padded;
    if !f.precision && len > 0 && (len == precision || len == width) {
      if unpadded < len {
        len := len - 1;
      }
      if len > 0 && (base == 16 || base == 2) && unpadded < len {
        len := len - 1;
      }
    }
  }

  /** The second half: the base's letter and a zero. */
  method PushPrefix(buf: array<char>, from: nat, base: nat, f: Flags) returns (len: nat)
    requires buf.Length == ROOM && from <= ROOM
    modifies buf
    ensures len <= ROOM && buf[..len] == Prefixed(old(buf[..from]), base, f.upper)
  {
    len := from;
    if base == 16 && !f.upper && len < ROOM {
      len := Push(buf, len, 'x');
    } else if base == 16 && f.upper && len < ROOM {
      len := Push(buf, len, 'X');
    } else if base == 2 && len < ROOM {
      len := Push(buf, len, 'b');
    }
    if len < ROOM {
      len := Push(buf, len, '0');
    }
  }

  /** The sign, when there is room. */
  method PushSign(buf: array<char>, from: nat, negative: bool, f: Flags) returns (len: nat)
    requires buf.Length == ROOM && from <= ROOM
    modifies buf
    ensures len <= ROOM && buf[..len] == WithSign(old(buf[..from]), negative, f)
  {
    len := from;
    if len < ROOM {
      if negative {
        len := Push(buf, len, '-');
      } else if f.plus {
        len := Push(buf, len, '+');
      } else if f.space {
        len := Push(buf, len, ' ');
      }
    }
  }

  /** The block of print_integer_finalization that handles the alternative form. */
  method AddPrefix(buf: array<char>, padded: nat, unpadded: nat, base: nat, precision: nat, width: nat, f: Flags)
    returns (len: nat)
    requires buf.Length == ROOM && unpadded <= padded <= ROOM
    modifies buf
    ensures len <= ROOM && buf[..len] == Alternative(old(buf[..padded]), unpadded, base, precision, width, f)
  {
    hide Prefixed, Kept;
    len := padded;
    if f.hash || f.pointer {
      len := GiveBack(len, unpadded, base, precision, width, f);
      assert buf[..len] == buf[..padded][..len];
      len := PushPrefix(buf, len, base, f);
    }
  }

  /** print_integer_finalization up to its call of out_rev_. */
  method FinishNumber(buf: array<char>, digits: nat, negative: bool, base: nat, precision: nat, fieldWidth: nat,
                      flags: Flags)
    returns (len: nat, width: nat)
    requires buf.Length == ROOM && digits <= ROOM
    modifies buf
    ensures len <= ROOM && width == ZeroWidth(negative, fieldWidth, flags)
    ensures buf[..len] == Finalized(old(buf[..digits]), negative, base, precision, fieldWidth, flags)
  {
    hide Alternative, WithSign, PaddedNumber, ZeroWidth;
    var f := flags;
    len, width := PadNumber(buf, digits, negative, precision, fieldWidth, f);
    if base == 8 && len > digits {
      f := f.(hash := false);
    }
    len := AddPrefix(buf, len, digits, base, precision, width, f);
    len := PushSign(buf, len, negative, flags);
  }

  /** print_integer_finalization. */
  method PrintIntegerFinalization(g: Gadget, buf: array<char>, digits: nat, negative: bool, base: nat,
                                  precision: nat, fieldWidth: nat, flags: Flags)
    requires g.Valid() && buf != g.buffer && buf.Length == ROOM && digits <= ROOM && fieldWidth < UINT
    modifies g, g.buffer, buf
    ensures g.Valid()
    ensures g.out == old(g.out)
                     + OutRevText(Finalized(old(buf[..digits]), negative, base, precision, fieldWidth, flags),
                                  ZeroWidth(negative, fieldWidth, flags), flags.left, flags.zeropad)
  {
    hide Deposit, Accepted, Finalized, OutRevText, ZeroWidth, Gadget.Valid;
    var len, width := FinishNumber(buf, digits, negative, base, precision, fieldWidth, flags);
    OutRev(g, buf[..len], width, flags);
  }

  lemma DigitStep(value: nat, base: nat, upper: bool, room: nat, done: seq<char>)
    requires value > 0 && room > 0 && 2 <= base <= 16
    ensures done + RevDigits(value, base, upper, room)
            == (done + [DigitChar(value % base, upper)]) + RevDigits(value / base, base, upper, room - 1)
  {
  }

  /** One turn of the digit loop of print_integer. */
  method PutDigit(buf: array<char>, at: nat, value: nat, base: nat, upper: bool) returns (len: nat, rest: nat)
    requires buf.Length == ROOM && at < ROOM && value > 0 && 2 <= base <= 16
    modifies buf
    ensures len == at + 1
    ensures buf[..len] + RevDigits(rest, base, upper, ROOM - len)
            == old(buf[..at]) + RevDigits(value, base, upper, ROOM - at)
  {
    hide RevDigits, DigitChar;
    DigitStep(value, base, upper, ROOM - at, buf[..at]);
    len, rest := at, value;
    buf[len] := DigitChar(rest % base, upper);
    len := len + 1;
    rest := rest / base;
  }

  lemma NoDigits(value: nat, base: nat, upper: bool, room: nat)
    requires 2 <= base <= 16 && (value == 0 || room == 0)
    ensures RevDigits(value, base, upper, room) == []
  {
  }

  /** The do-while loop of print_integer that fills the buffer with digits. */
  method DigitLoop(buf: array<char>, number: nat, base: nat, upper: bool) returns (len: nat)
    requires buf.Length == ROOM && number > 0 && 2 <= base <= 16
    modifies buf
    ensures len <= ROOM && buf[..len] == RevDigits(number, base, upper, ROOM)
  {
    hide RevDigits, DigitChar;
    var value: nat := number;
    len := 0;
    var first := true;
    while first || (value > 0 && len < ROOM)
      invariant len <= ROOM && (first ==> len == 0 && value > 0)
      invariant buf[..len] + RevDigits(value, base, upper, ROOM - len) == RevDigits(number, base, upper, ROOM)
      decreases ROOM - len
    {
      first := false;
      len, value := PutDigit(buf, len, value, base, upper);
    }
    NoDigits(value, base, upper, ROOM - len);
  }

  /** The first part of print_integer. */
  method PutDigits(buf: array<char>, number: nat, base: nat, flags: Flags) returns (len: nat, f: Flags)
    requires buf.Length == ROOM && 2 <= base <= 16
    modifies buf
    ensures len <= ROOM && buf[..len] == FirstDigits(number, base, flags)
    ensures f == FirstFlags(number, base, flags)
  {
    hide RevDigits, DigitChar;
    len, f := 0, flags;
    if number == 0 {
      if !f.precision {
        len := Push(buf, len, '0');
        f := f.(hash := false);
      } else if base == 16 {
        f := f.(hash := false);
      }
    } else {
      len := DigitLoop(buf, number, base, f.upper);
    }
  }

  /** print_integer. */
  method PrintInteger(g: Gadget, number: nat, negative: bool, base: nat, precision: nat, width: nat, flags: Flags)
    requires g.Valid() && 2 <= base <= 16 && width < UINT
    modifies g, g.buffer
    ensures g.Valid() && g.out == old(g.out) + IntegerCode(number, negative, base, precision, width, flags)
  {
    hide Deposit, Accepted, Repeat, Reverse, OutRevText, Finalized, ZeroWidth, FirstDigits, FirstFlags, Gadget.Valid;
    var buf := new char[ROOM];
    var len, f := PutDigits(buf, number, base, flags);
    PrintIntegerFinalization(g, buf, len, negative, base, precision, width, f);
  }
}
