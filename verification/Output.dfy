/** The output gadget of sdk/librv/printf.c: a counted, capacity-limited sink that is a
    buffer, a character function, or neither. */
module Output {
  const INT_MAX := 0x7FFF_FFFF
  const UINT := 0x1_0000_0000  // one past the largest printf_size_t

  /** What a buffer of the given first contents holds after the characters of out were put:
      position by position, each kept only below the capacity. */
  function Deposit(buf: seq<char>, out: seq<char>, capacity: nat): (r: seq<char>)
    requires capacity <= |buf|
    ensures |r| == |buf|
    decreases |out|
  {
    if |out| == 0 then buf
    else
      var last := |out| - 1;
      var r := Deposit(buf, out[..last], capacity);
      var at := last % UINT;
      if at < capacity then r[at := out[last]] else r
  }

  /** The characters of out that a character function receives. */
  function Accepted(out: seq<char>, capacity: nat): seq<char>
    decreases |out|
  {
    if |out| == 0 then []
    else
      var last := |out| - 1;
      Accepted(out[..last], capacity) + (if last % UINT < capacity then [out[last]] else [])
  }

  function Min(a: int, b: int): int {
    if a <= b then a else b
  }

  /** One more character put. */
  lemma PutOne(buf: seq<char>, out: seq<char>, c: char, capacity: nat)
    ensures var at := |out| % UINT;
            && (capacity <= |buf| ==>
                  Deposit(buf, out + [c], capacity)
                  == if at < capacity then Deposit(buf, out, capacity)[at := c] else Deposit(buf, out, capacity))
            && Accepted(out + [c], capacity) == Accepted(out, capacity) + (if at < capacity then [c] else [])
            && (at + 1) % UINT == |out + [c]| % UINT
  {
    assert (out + [c])[..|out|] == out;
  }

  lemma Extended(out: seq<char>, c: char, capacity: nat)
    ensures (out + [c])[..Min(|out| + 1, capacity)]
            == out[..Min(|out|, capacity)] + (if |out| < capacity then [c] else [])
  {
  }

  lemma NothingPut(buf: seq<char>, out: seq<char>, capacity: nat)
    requires |out| == 0
    ensures (capacity <= |buf| ==> Deposit(buf, out, capacity) == buf) && Accepted(out, capacity) == []
  {
  }

  /** While the position does not wrap, the buffer holds the longest prefix that fits. */
  lemma {:induction false} DepositIsPrefix(buf: seq<char>, out: seq<char>, capacity: nat)
    requires capacity <= |buf| && |out| <= UINT
    ensures var k := Min(|out|, capacity);
            Deposit(buf, out, capacity) == out[..k] + buf[k..]
    decreases |out|
  {
    hide Deposit, Accepted;
    if |out| == 0 {
      NothingPut(buf, out, capacity);
    } else {
      var before, c := out[..|out| - 1], out[|out| - 1];
      assert out == before + [c];
      DepositIsPrefix(buf, before, capacity);
      PutOne(buf, before, c, capacity);
      Extended(before, c, capacity);
    }
  }

  lemma {:induction false} AcceptedIsPrefix(out: seq<char>, capacity: nat)
    requires |out| <= UINT
    ensures Accepted(out, capacity) == out[..Min(|out|, capacity)]
    decreases |out|
  {
    hide Deposit, Accepted;
    if |out| == 0 {
      NothingPut([], out, capacity);
    } else {
      var before, c := out[..|out| - 1], out[|out| - 1];
      assert out == before + [c];
      AcceptedIsPrefix(before, capacity);
      PutOne([], before, c, capacity);
      Extended(before, c, capacity);
    }
  }

  class Gadget {
    const hasFunction: bool
    const buffer: array?<char>
    const maxChars: nat
    var pos: nat
    var sent: seq<char>  // what the function was called with
    ghost const before: seq<char>  // the buffer as it was at first
    ghost var out: seq<char>  // every character ever put

    /** The buffer or function, and the state it must be in for the characters put. */
    ghost predicate Valid()
      reads this, buffer
    {
      && maxChars <= INT_MAX && pos == |out| % UINT
      && (maxChars == 0 || hasFunction || buffer != null)
      && sent == (if hasFunction then Accepted(out, maxChars) else [])
      && (buffer != null ==> |before| == buffer.Length && maxChars <= buffer.Length)
      && (buffer != null && !hasFunction ==> buffer[..] == Deposit(before, out, maxChars))
    }

    /** buffer_gadget: a NULL buffer has no capacity, a longer one is cut to INT_MAX. */
    constructor OnBuffer(buffer: array?<char>, size: nat)
      requires buffer != null ==> size <= buffer.Length
      ensures Valid() && out == [] && !hasFunction && this.buffer == buffer
      ensures maxChars == if buffer == null then 0 else Min(size, INT_MAX)
      ensures buffer != null ==> before == buffer[..]
    {
      hasFunction := false;
      this.buffer := buffer;
      maxChars := if buffer == null then 0 else if size > INT_MAX then INT_MAX else size;
      pos, sent, out := 0, [], [];
      before := if buffer == null then [] else buffer[..];
    }

    /** function_gadget. */
    constructor OnFunction()
      ensures Valid() && out == [] && hasFunction && buffer == null && maxChars == INT_MAX
    {
      hasFunction, buffer, maxChars := true, null, INT_MAX;
      pos, sent, out, before := 0, [], [], [];
    }

    /** putchar_via_gadget: the position always advances, the write needs room. */
    method Put(c: char)
      requires Valid()
      modifies this, buffer
      ensures Valid() && out == old(out) + [c]
    {
      PutOne(before, out, c, maxChars);
      out := out + [c];
      var writePos := pos;
      pos := (pos + 1) % UINT;
      if writePos >= maxChars {
        return;
      }
      if hasFunction {
        sent := sent + [c];
      } else {
        buffer[writePos] := c;
      }
    }

    /** append_termination_with_gadget: NUL after the text, or in the last place. */
    method Terminate()
      requires Valid()
      modifies buffer
      ensures buffer != null && !hasFunction && maxChars > 0 ==>
                buffer[..] == old(buffer[..])[Min(pos, maxChars - 1) := '\0']
      ensures buffer == null || hasFunction || maxChars == 0 ==> (buffer != null ==> buffer[..] == old(buffer[..]))
    {
      if hasFunction || maxChars == 0 {
        return;
      }
      if buffer == null {
        return;
      }
      var nulPos := if pos < maxChars then pos else maxChars - 1;
      buffer[nulPos] := '\0';
    }
  }
}
