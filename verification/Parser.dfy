/** __bitmap_parse: its meaning as a scan over the text, and the loop that works on the bitmap. */
module Parser {
  import opened Bits
  import opened Words
  import Weights
  import opened Bitmap
  import opened Shifts
  import opened Inlines
  import opened Hex

  // The value of the groups put into the bitmap, or the error. -EOVERFLOW leaves no promise about the bitmap.
  datatype Outcome = Accepted(value: nat) | Invalid(value: nat) | Overflow

  // What happens when a group ends.
  function EndOfGroup(n: nat, digits: bool, group: nat, value: nat): Outcome {
    if !digits then Invalid(value)
    else if Join(group, value, 32) < Pow2(n) then Accepted(Join(group, value, 32))
    else Overflow
  }

  // Scanning the rest of a text for a bitmap of n bits, after
  //   prev    - the character before it,
  //   started - whether any digit has been seen,
  //   digits  - whether the current group has a digit,
  //   group   - the value of the current group so far,
  //   value   - the value of the groups before it.
  function Scan(text: string, n: nat, prev: char, started: bool, digits: bool, group: nat, value: nat): Outcome
    decreases |text|
  {
    if text == "" then EndOfGroup(n, digits, group, value)
    else
      var c, rest := text[0], text[1..];
      if IsSpace(c) then Scan(rest, n, c, started, digits, group, value)
      else if started && c != NUL && IsSpace(prev) then Accepted(value)
      else if c == NUL then EndOfGroup(n, digits, group, value)
      else if c == ',' then
        var end := EndOfGroup(n, digits, group, value);
        if end.Accepted? && rest != "" then Scan(rest, n, c, started, false, 0, end.value) else end
      else if !IsXDigit(c) then Invalid(value)
      else if group >= 0x1000_0000 then Overflow
      else Scan(rest, n, c, true, true, 16 * group + Unhex(c), value)
  }

  function Parsed(text: string, n: nat): Outcome {
    Scan(text, n, NUL, false, false, 0, 0)
  }

  // ---------------------------------------------------------------------------
  // One group: shift the bitmap up by 32 bits and put the group below
  // ---------------------------------------------------------------------------

  lemma OrBelow(x: nat, group: nat)
    requires group < Pow2(32)
    requires x % Pow2(32) == 0
    ensures Bitwise(OR, x, group) == x + group
  {
    var h: nat := High(x, 32);
    assert x == Join(0, h, 32) by { LowAndHigh(x, 32); }
    OrJoin(h, group, 32);
  }

  // Or-ing into the zeros below a number puts the operand there.
  lemma OrJoin(high: nat, low: nat, n: nat)
    requires low < Pow2(n)
    ensures Bitwise(OR, Join(0, high, n), low) == Join(low, high, n) == Join(0, high, n) + low
  {
    assert low == Join(low, 0, n);
    BitwiseJoin(OR, 0, high, low, 0, n);
    BitwiseZero(OR, low);
    BitwiseZero(OR, high);
  }

  // Or-ing into the first word is or-ing into the number.
  lemma OrFirstWord(s: seq<Word>, t: seq<Word>, w: Word)
    requires |s| == |t| > 0
    requires t[0] == Or(s[0], w) && t[1..] == s[1..]
    ensures Value(t) == Bitwise(OR, Value(s), w)
  {
    WordRange();
    BitwiseJoin(OR, s[0], Value(s[1..]), w, 0, 64);
    BitwiseZero(OR, Value(s[1..]));
    assert w == Join(w, 0, 64);
  }

  // A bitmap shifted up by 32 bits has room for a group, and loses nothing if the result fits.
  lemma AppendGroup(value: nat, n: nat, group: nat)
    requires value < Pow2(n) && group < Pow2(32)
    ensures var y := Bitwise(OR, ShiftedLeft(value, 32, n), group);
            Join(group, value, 32) < Pow2(n) ==> y == Join(group, value, 32)
  {
    var x: nat := ShiftedLeft(value, 32, n);
    LowShifted(value, n);
    OrBelow(x, group);
    if Join(group, value, 32) < Pow2(n) {
      NoWrap(Scale(value, 32), Pow2(n));
    }
  }

  lemma LowShifted(value: nat, n: nat)
    ensures ShiftedLeft(value, 32, n) % Pow2(32) == 0
  {
    forall i | 0 <= i < 32
      ensures Bit(0, i) == Bit(ShiftedLeft(value, 32, n), i)
    {
      BitShiftedLeft(value, 32, n, i);
      BitZero(i);
    }
    LowDetermined(ShiftedLeft(value, 32, n), 0, 32);
  }

  // `nbits` counts the bits of the value exactly.
  lemma CountBits(group: nat, value: nat, n: nat)
    requires group < Pow2(32)
    ensures BitLength(Join(group, value, 32)) == if value == 0 then BitLength(group) else BitLength(value) + 32
    ensures BitLength(Join(group, value, 32)) <= n <==> Join(group, value, 32) < Pow2(n)
    ensures Join(group, value, 32) == 0 <==> group == 0 && value == 0
  {
    if value > 0 {
      BitLengthJoin(group, value, 32);
      MulMono(1, value, Pow2(32));
    }
    BitLengthIff(Join(group, value, 32), n);
  }

  // chunk & ~((1UL << 28) - 1) is not 0 when another digit would not fit.
  predicate NoRoomForDigit(chunk: Uint32) {
    And(chunk, Not(LowMask(28))) != 0
  }

  lemma FullChunk(chunk: Uint32)
    ensures NoRoomForDigit(chunk) <==> chunk >= 0x1000_0000
  {
    AndNot(chunk, LowMask(28));
    Pow2Of28();
    ShlOne(28);
    ClearLow(chunk, 28);
    if chunk < 0x1000_0000 {
      NoWrap(chunk, Pow2(28));
    }
  }

  lemma Pow2Of28()
    ensures Pow2(28) == 0x1000_0000
  {
    Pow2Product(2, 2, 4, 4);
    Pow2Product(4, 4, 0x10, 0x10);
    Pow2Product(8, 8, 0x100, 0x100);
    Pow2Product(16, 8, 0x1_0000, 0x100);
    Pow2Product(24, 4, 0x100_0000, 0x10);
  }

  lemma OrDigit(chunk: nat, digit: nat)
    requires digit < 16
    ensures Bitwise(OR, 16 * chunk, digit) == 16 * chunk + digit
  {
    Pow2Product(2, 2, 4, 4);
    OrJoin(chunk, digit, 4);
  }

  // (chunk << 4) | digit
  function AddDigit(chunk: Uint32, digit: nat): (r: Word)
    requires digit < 16
  {
    Or(Weights.Shl32(chunk, 4), digit)
  }

  lemma OneMoreDigit(chunk: Uint32, digit: nat)
    requires chunk < 0x1000_0000 && digit < 16
    ensures AddDigit(chunk, digit) == 16 * chunk + digit
  {
    OrDigit(chunk, digit);
    ShiftedDigit(chunk);
  }

  lemma ShiftedDigit(chunk: Uint32)
    requires chunk < 0x1000_0000
    ensures Weights.Shl32(chunk, 4) == 16 * chunk
  {
    assert Scale(chunk, 4) == 16 * chunk by { Pow2Product(2, 2, 4, 4); }
    assert Pow2(32) == 0x1_0000_0000 by { Pow2Of32(); }
    NoWrap(16 * chunk, 0x1_0000_0000);
  }

  // One more digit for the chunk, if there are 4 free bits at its top.
  method TakeDigit(chunk: Uint32, digit: nat) returns (room: bool, chunk': Uint32)
    requires digit < 16
    ensures room <==> chunk < 0x1000_0000
    ensures chunk' == if room then 16 * chunk + digit else chunk
  {
    FullChunk(chunk);
    if NoRoomForDigit(chunk) {
      return false, chunk;
    }
    OneMoreDigit(chunk, digit);
    return true, AddDigit(chunk, digit);
  }

  // ---------------------------------------------------------------------------
  // __bitmap_parse
  // ---------------------------------------------------------------------------

  datatype Status = OK | EINVAL | EOVERFLOW

  // A return code, and what the bitmap then holds.
  predicate Agrees(outcome: Outcome, status: Status, number: nat) {
    match outcome
    case Accepted(v) => status == OK && number == v
    case Invalid(v) => status == EINVAL && number == v
    case Overflow => status == EOVERFLOW
  }

  // What follows once a group has ended at character c.
  function AfterGroup(rest: string, n: nat, c: char, digits: bool, group: nat, value: nat): Outcome {
    var end := EndOfGroup(n, digits, group, value);
    if end.Accepted? && c == ',' && rest != "" then Scan(rest, n, c, true, false, 0, end.value) else end
  }

  lemma SpaceStep(t: string, n: nat, prev: char, started: bool, digits: bool, group: nat, value: nat)
    requires t != "" && IsSpace(t[0])
    ensures Scan(t, n, prev, started, digits, group, value) == Scan(t[1..], n, t[0], started, digits, group, value)
  {
  }

  lemma DigitStep(t: string, n: nat, prev: char, started: bool, digits: bool, group: nat, value: nat)
    requires t != "" && IsXDigit(t[0]) && !(started && IsSpace(prev)) && group < 0x1000_0000
    ensures Scan(t, n, prev, started, digits, group, value) ==
            Scan(t[1..], n, t[0], true, true, 16 * group + Unhex(t[0]), value)
  {
  }

  datatype GroupEnd = Boundary | Quit(status: Status)

  // The inner loop: reads one group, up to a comma, a NUL or the end of the buffer.
  method NextGroup(buf: array<char>, start: nat, buflen: nat, c0: char, total0: nat, ghost n: nat, ghost value: nat)
    returns (pos: nat, c: char, totaldigits: nat, chunk: Uint32, ndigits: nat, end: GroupEnd)
    requires start <= buflen <= buf.Length
    ensures start <= pos <= buflen && (start < buflen ==> start < pos)
    ensures end.Quit? ==> Agrees(Scan(buf[start..buflen], n, c0, total0 > 0, false, 0, value), end.status, value)
    ensures end.Boundary? && ndigits > 0 ==> totaldigits > 0
    ensures end.Boundary? ==> Scan(buf[start..buflen], n, c0, total0 > 0, false, 0, value) ==
                              AfterGroup(buf[pos..buflen], n, c, ndigits > 0, chunk, value)
  {
    pos, c, totaldigits, chunk, ndigits, end := start, c0, total0, 0, 0, Boundary;
    ghost var outcome := Scan(buf[start..buflen], n, c0, total0 > 0, false, 0, value);
    while pos < buflen
      invariant start <= pos <= buflen
      invariant ndigits > 0 ==> totaldigits > 0
      invariant Scan(buf[pos..buflen], n, c, totaldigits > 0, ndigits > 0, chunk, value) == outcome
    {
      ghost var rest := buf[pos..buflen];
      assert rest[0] == buf[pos] && rest[1..] == buf[pos + 1..buflen];
      var previous := c;
      c := buf[pos];
      pos := pos + 1;
      if IsSpace(c) {
        SpaceStep(rest, n, previous, totaldigits > 0, ndigits > 0, chunk, value);
        continue;
      }
      if totaldigits != 0 && c != NUL && IsSpace(previous) {
        end := Quit(OK);
        return;
      }
      if c == NUL || c == ',' {
        break;
      }
      if !IsXDigit(c) {
        end := Quit(EINVAL);
        return;
      }
      ghost var before := chunk;
      var room: bool;
      room, chunk := TakeDigit(chunk, Unhex(c));
      if !room {
        end := Quit(EOVERFLOW);
        return;
      }
      DigitStep(rest, n, previous, totaldigits > 0, ndigits > 0, before, value);
      ndigits, totaldigits := ndigits + 1, totaldigits + 1;
    }
  }

  // __bitmap_shift_left(maskp, maskp, 32, nmaskbits) and `*maskp |= chunk`
  method PushGroup(maskp: array<Word>, nmaskbits: nat, chunk: Uint32)
    requires Fits(maskp, nmaskbits) && Number(maskp, nmaskbits) < Pow2(nmaskbits)
    modifies maskp
    ensures Join(chunk, old(Number(maskp, nmaskbits)), 32) < Pow2(nmaskbits) ==>
              Number(maskp, nmaskbits) == Join(chunk, old(Number(maskp, nmaskbits)), 32)
    ensures maskp[BitsToLongs(nmaskbits)..] == old(maskp[BitsToLongs(nmaskbits)..])
  {
    Pow2Of32();
    AppendGroup(Number(maskp, nmaskbits), nmaskbits, chunk);
    ShiftLeft(maskp, maskp, 32, nmaskbits);
    ghost var s := maskp[..BitsToLongs(nmaskbits)];
    maskp[0] := Or(maskp[0], chunk);
    OrFirstWord(s, maskp[..BitsToLongs(nmaskbits)], chunk);
  }

  // The bits that one more group adds to the count.
  method AddBits(chunk: Uint32, nchunks: nat, nbits: nat, ghost value: nat) returns (sum: nat)
    requires nbits == BitLength(value) && (nchunks == 1 <==> value == 0)
    ensures sum == BitLength(Join(chunk, value, 32))
  {
    Pow2Of32();
    CountBits(chunk, value, 0);
    if nchunks == 1 {
      var f := Weights.Fls(chunk);
      sum := nbits + f;
    } else {
      sum := nbits + 32;
    }
  }

  // What the outer loop does with a group that has a digit: leading zero groups are passed over.
  method AddGroup(maskp: array<Word>, nmaskbits: nat, chunk: Uint32, nchunks: nat, nbits: nat, ghost value: nat)
    returns (nchunks': nat, nbits': nat, fits: bool)
    requires Fits(maskp, nmaskbits) && Number(maskp, nmaskbits) == value < Pow2(nmaskbits)
    requires nbits == BitLength(value) && (nchunks == 0 <==> value == 0)
    modifies maskp
    ensures fits <==> Join(chunk, value, 32) < Pow2(nmaskbits)
    ensures fits ==> Number(maskp, nmaskbits) == Join(chunk, value, 32)
    ensures nbits' == BitLength(Join(chunk, value, 32)) && (nchunks' == 0 <==> Join(chunk, value, 32) == 0)
    ensures maskp[BitsToLongs(nmaskbits)..] == old(maskp[BitsToLongs(nmaskbits)..])
  {
    Pow2Of32();
    CountBits(chunk, value, nmaskbits);
    if nchunks == 0 && chunk == 0 {
      return nchunks, nbits, true;
    }
    PushGroup(maskp, nmaskbits, chunk);
    nchunks' := nchunks + 1;
    nbits' := AddBits(chunk, nchunks', nbits, value);
    fits := nbits' <= nmaskbits;
  }

  // __bitmap_parse
  method Parse(buf: array<char>, buflen: nat, maskp: array<Word>, nmaskbits: nat) returns (status: Status)
    requires buflen <= buf.Length && Fits(maskp, nmaskbits)
    modifies maskp
    ensures Agrees(Parsed(buf[..buflen], nmaskbits), status, Number(maskp, nmaskbits))
    ensures status != EOVERFLOW ==> Clean(maskp, nmaskbits)
    ensures maskp[BitsToLongs(nmaskbits)..] == old(maskp[BitsToLongs(nmaskbits)..])
  {
    BitmapZero(maskp, nmaskbits);
    var pos: nat, c, totaldigits: nat, nchunks: nat, nbits: nat := 0, NUL, 0, 0, 0;
    ghost var value: nat := 0;
    ghost var outcome := Parsed(buf[..buflen], nmaskbits);
    assert buf[0..buflen] == buf[..buflen];
    while true
      invariant pos <= buflen
      invariant Scan(buf[pos..buflen], nmaskbits, c, totaldigits > 0, false, 0, value) == outcome
      invariant Number(maskp, nmaskbits) == value < Pow2(nmaskbits)
      invariant nbits == BitLength(value) && (nchunks == 0 <==> value == 0)
      invariant maskp[BitsToLongs(nmaskbits)..] == old(maskp[BitsToLongs(nmaskbits)..])
      decreases buflen - pos
    {
      var chunk: Uint32, ndigits: nat, end: GroupEnd;
      pos, c, totaldigits, chunk, ndigits, end := NextGroup(buf, pos, buflen, c, totaldigits, nmaskbits, value);
      if end.Quit? {
        return end.status;
      }
      if ndigits == 0 {
        return EINVAL;
      }
      var fits: bool;
      nchunks, nbits, fits := AddGroup(maskp, nmaskbits, chunk, nchunks, nbits, value);
      if !fits {
        return EOVERFLOW;
      }
      value := Join(chunk, value, 32);
      if !(pos < buflen && c == ',') {
        return OK;
      }
    }
  }
}
