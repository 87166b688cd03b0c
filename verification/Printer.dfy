/** bitmap_scnprintf: a bitmap written to a buffer as comma-separated groups of hexadecimal digits. */
module Printer {
  import opened Bits
  import opened Words
  import opened Bitmap
  import opened Hex
  import opened Layout
  import opened TextForm
  import opened Letters

  // ---------------------------------------------------------------------------
  // bitmap_scnprintf
  // ---------------------------------------------------------------------------

  // What snprintf leaves in a buffer: as much of the text as fits before a NUL; nothing where there is no room.
  ghost predicate Stored(content: string, text: string) {
    |content| > 0 ==>
      var k := if |text| < |content| then |text| else |content| - 1;
      content[..k] == text[..k] && content[k] == NUL
  }

  // snprintf(buf + len, buflen - len, "%s%0*lx", sep, width, val), which returns the length of the whole text.
  method Snprintf(buf: array<char>, len: nat, sep: string, width: nat, val: nat) returns (n: nat)
    requires len <= buf.Length
    modifies buf
    ensures n == |sep + Padded(val, width)|
    ensures buf[..len] == old(buf[..len])
    ensures Stored(buf[len..], sep + Padded(val, width))
    ensures len < buf.Length ==> buf[if len + n < buf.Length then len + n else buf.Length - 1] as int == 0
    ensures forall i :: len + n < i < buf.Length ==> buf[i] == old(buf[i])
  {
    var text := sep + Padded(val, width);
    n := |text|;
    if len < buf.Length {
      var k: nat := if n < buf.Length - len then n else buf.Length - len - 1;
      forall i | 0 <= i < k {
        buf[len + i] := text[i];
      }
      buf[len + k] := NUL;
      assert buf[len..][..k] == text[..k];
    }
  }

  // A piece written right after a text makes a longer text, whether or not there was room for all of it.
  lemma StoredMore(before: string, after: string, written: string, piece: string)
    requires |before| == |after| && |written| <= |before|
    requires written == "" || Stored(before, written)
    requires after[..|written|] == before[..|written|] && Stored(after[|written|..], piece)
    ensures Stored(after, written + piece)
  {
    var len, text := |written|, written + piece;
    if len == |after| {
      assert after == before;
    } else {
      assert after[..len] == written;
      var k: nat := if |piece| < |after| - len then |piece| else |after| - len - 1;
      assert after[..len + k] == after[..len] + after[len..][..k];
      assert text[..len + k] == written + piece[..k];
    }
  }

  // ALIGN for a power of two a.
  function Align(x: nat, a: nat): nat
    requires a > 0
  {
    Bitwise(ANDNOT, x + a - 1, a - 1)
  }

  lemma Pow2Of5()
    ensures Pow2(5) == 32
  {
    assert Pow2(5) == 32;
  }

  lemma AlignChunk(x: nat)
    ensures Align(x, 32) == 32 * GroupCount(x)
  {
    Pow2Of5();
    ClearLow(x + 31, 5);
  }

  lemma LowChunk(x: nat)
    ensures Bitwise(AND, x, 31) == x % 32
  {
    Pow2Of5();
    AndMask(x, 5);
  }

  // `(1ULL << c) - 1` as a uint32_t.
  function ChunkMask(c: nat): Uint32
    requires c <= 32
  {
    ShlOne(c); Pow2Of32(); Pow2Mono(c, 32);
    Shl(1, c) - 1
  }

  lemma AndChunk(w: Word, c: nat)
    requires c <= 32
    ensures And(w, ChunkMask(c)) == w % Pow2(c)
  {
    ShlOne(c);
    AndMask(w, c);
  }

  // A group lies within one word.
  lemma SameWordIndex(g: nat, b: nat)
    requires b < 32
    ensures (32 * g + b) / 64 == (32 * g) / 64 && (32 * g + b) % 64 == (32 * g) % 64 + b
  {
    DivMod(g, 2);
    WordIndex(32 * g, g / 2, 32 * (g % 2));
    WordIndex(32 * g + b, g / 2, 32 * (g % 2) + b);
  }

  lemma WordInRange(i: nat, len: nat)
    requires i < 64 * len
    ensures i / 64 < len
  {
    DivMod(i, 64);
  }

  lemma ReadBit(s: seq<Word>, g: nat, b: nat)
    requires 32 * g + b < 64 * |s| && b < 32
    ensures (32 * g) / 64 < |s|
    ensures Bit(Shr(s[(32 * g) / 64], (32 * g) % 64), b) == Bit(Value(s), 32 * g + b)
  {
    WordInRange(32 * g, |s|);
    BitValue(s, 32 * g + b);
    SameWordIndex(g, b);
    BitShr(s[(32 * g) / 64], (32 * g) % 64, b);
  }

  // Reading c bits at bit i of the words of a bitmap.
  lemma ReadGroup(s: seq<Word>, n: nat, g: nat, c: nat)
    requires |s| == BitsToLongs(n) && 0 < c <= 32 && 32 * g + c <= n
    ensures (32 * g) / 64 < |s|
    ensures And(Shr(s[(32 * g) / 64], (32 * g) % 64), ChunkMask(c)) == Group(Value(s) % Pow2(n), g, c)
  {
    BitsInWords(n);
    ReadBit(s, g, 0);
    var w, group := Shr(s[(32 * g) / 64], (32 * g) % 64), Group(Value(s) % Pow2(n), g, c);
    forall b | 0 <= b < c
      ensures Bit(group, b) == Bit(w, b)
    {
      BitGroup(Value(s) % Pow2(n), g, c, b);
      BitMod(Value(s), n, 32 * g + b);
      ReadBit(s, g, b);
    }
    GroupBound(Value(s) % Pow2(n), g, c);
    LowDetermined(w, group, c);
    AndChunk(w, c);
  }

  // The size and the first bit of the top group.
  method FirstChunk(nmaskbits: nat) returns (chunksz: nat, i: int)
    ensures chunksz == TopChunk(nmaskbits) && i == 32 * GroupCount(nmaskbits) - 32
    ensures nmaskbits > 0 ==> i + chunksz == nmaskbits
  {
    assert Bitwise(AND, nmaskbits, 31) == nmaskbits % 32 by { LowChunk(nmaskbits); }
    assert Align(nmaskbits, 32) == 32 * GroupCount(nmaskbits) by { AlignChunk(nmaskbits); }
    TopChunkFits(nmaskbits);
    chunksz := Bitwise(AND, nmaskbits, 31);
    if chunksz == 0 {
      chunksz := 32;
    }
    i := Align(nmaskbits, 32) - 32;
  }

  lemma TopChunkFits(nmaskbits: nat)
    ensures nmaskbits > 0 ==> 32 * GroupCount(nmaskbits) - 32 + TopChunk(nmaskbits) == nmaskbits
  {
  }

  // What has been written, with g groups still to be read, is what is due of the text.
  ghost predicate Progress(text: string, v: nat, g: nat, chunksz: nat, first: bool, written: string) {
    if first then written == "" && text == if g == 0 then "" else PrintedFrom(v, Lead(v, g, chunksz), chunksz)
    else chunksz == 32 && text == written + Tail(v, g)
  }

  function Separator(first: bool): string {
    if first then "" else ","
  }

  lemma ProgressPrint(text: string, v: nat, g: nat, chunksz: nat, first: bool, written: string, val: nat)
    requires Progress(text, v, g, chunksz, first, written) && g > 0
    requires val == Group(v, g - 1, chunksz) && (val != 0 || !first || g == 1)
    ensures var written' := written + (Separator(first) + Padded(val, Width(chunksz)));
            Progress(text, v, g - 1, 32, false, written')
  {
    var digits := Padded(val, Width(chunksz));
    if first {
      assert Lead(v, g, chunksz) == g - 1;
      assert text == digits + Tail(v, g - 1);
      assert written + (Separator(first) + digits) == digits;
    } else {
      assert text == written + ("," + digits + Tail(v, g - 1));
      assert text == (written + ("," + digits)) + Tail(v, g - 1);
    }
  }

  lemma ProgressSkip(text: string, v: nat, g: nat, chunksz: nat, written: string)
    requires Progress(text, v, g, chunksz, true, written) && g > 1
    requires Group(v, g - 1, chunksz) == 0
    ensures Progress(text, v, g - 1, chunksz, true, written)
  {
  }

  lemma ProgressDone(text: string, v: nat, chunksz: nat, first: bool, written: string)
    requires Progress(text, v, 0, chunksz, first, written)
    ensures written == text
  {
  }

  // Every piece after the first has nine characters or more.
  lemma PieceLength(text: string, v: nat, g: nat, chunksz: nat, first: bool, written: string)
    requires Progress(text, v, g, chunksz, first, written) && g > 0
    ensures first || |written| + 9 <= |text|
  {
    if !first {
      var piece := "," + Padded(Group(v, g - 1, 32), Width(32));
      assert |piece| >= 9;
      assert Tail(v, g) == piece + Tail(v, g - 1);
    }
  }

  // `(maskp[word] >> bit) & chunkmask` for the chunk at bit i.
  method ReadChunk(maskp: array<Word>, nmaskbits: nat, i: nat, chunksz: nat, ghost v: nat, ghost g: nat)
    returns (val: nat)
    requires BitsToLongs(nmaskbits) <= maskp.Length && v == Number(maskp, nmaskbits) % Pow2(nmaskbits)
    requires i == 32 * g && 0 < chunksz <= 32 && i + chunksz <= nmaskbits
    ensures val == Group(v, g, chunksz)
  {
    ReadGroup(maskp[..BitsToLongs(nmaskbits)], nmaskbits, g, chunksz);
    var chunkmask := ChunkMask(chunksz);
    var word, bit := i / 64, i % 64;
    val := And(Shr(maskp[word], bit), chunkmask);
  }

  // What the buffer holds once `written` has been written to it; at first it is untouched.
  ghost predicate Output(content: string, first: bool, written: string) {
    if first then written == "" else Stored(content, written)
  }

  // What one round of the loop does with the value that it has read.
  method PrintChunk(buf: array<char>, len: nat, chunksz: nat, first: bool, last: bool, val: nat,
                    ghost text: string, ghost v: nat, ghost g: nat, ghost written: string)
    returns (len': nat, chunksz': nat, first': bool, ghost written': string)
    requires g > 0 && val == Group(v, g - 1, chunksz) && last == (g == 1)
    requires |text| <= buf.Length + 9
    requires Progress(text, v, g, chunksz, first, written)
    requires len == |written| && Output(buf[..], first, written)
    modifies buf
    ensures chunksz' == chunksz || chunksz' == 32
    ensures first' ==> g > 1
    ensures Progress(text, v, g - 1, chunksz', first', written')
    ensures len' == |written'| && Output(buf[..], first', written')
  {
    len', chunksz', first', written' := len, chunksz, first, written;
    if val != 0 || !first || last {
      ghost var before := buf[..];
      PieceLength(text, v, g, chunksz, first, written);
      ProgressPrint(text, v, g, chunksz, first, written, val);
      var n := Snprintf(buf, len, Separator(first), (chunksz + 3) / 4, val);
      len' := len + n;
      chunksz' := 32;
      first' := false;
      written' := written + (Separator(first) + Padded(val, Width(chunksz)));
      StoredMore(before, buf[..], written, Separator(first) + Padded(val, Width(chunksz)));
    } else {
      ProgressSkip(text, v, g, chunksz, written);
    }
  }

  // The loop, from the bit and with the size of the topmost of the groups.
  method PrintGroups(buf: array<char>, maskp: array<Word>, nmaskbits: nat, i0: int, chunksz0: nat,
                     ghost text: string, ghost v: nat, ghost groups: nat)
    returns (len: nat)
    requires BitsToLongs(nmaskbits) <= maskp.Length && v == Number(maskp, nmaskbits) % Pow2(nmaskbits)
    requires |text| <= buf.Length + 9
    requires i0 == 32 * groups - 32 && 0 < chunksz0 <= 32 && (groups > 0 ==> i0 + chunksz0 <= nmaskbits)
    requires Progress(text, v, groups, chunksz0, true, "")
    modifies buf
    ensures len == |text|
    ensures groups > 0 ==> Stored(buf[..], text)
  {
    ghost var g: nat, written := groups, "";
    len := 0;
    var i, chunksz, first := i0, chunksz0, true;
    while i >= 0
      invariant i == 32 * g - 32
      invariant 0 < chunksz <= 32 && (g > 0 ==> i + chunksz <= nmaskbits)
      invariant first && g == 0 ==> groups == 0
      invariant Progress(text, v, g, chunksz, first, written)
      invariant len == |written| && Output(buf[..], first, written)
      decreases g
    {
      var val := ReadChunk(maskp, nmaskbits, i, chunksz, v, g - 1);
      len, chunksz, first, written := PrintChunk(buf, len, chunksz, first, i == 0, val, text, v, g, written);
      g := g - 1;
      i := i - 32;
    }
    ProgressDone(text, v, chunksz, first, written);
  }

  // What a caller finds in its buffer, and the length that it is told. The leading group takes the least number
  // of digits that covers the bits above the full groups of the width; nine characters go to every other group.
  // Nothing but digits, lowercase letters and commas is written, and a zero byte after what fits.
  ghost predicate Written(content: string, len: nat, v: nat, nmaskbits: nat)
    requires nmaskbits > 0
  {
    var text, d := Printed(v, nmaskbits), len - 9 * (Groups(Shown(v, nmaskbits)) - 1);
    && len == |text|
    && 4 * (d - 1) < nmaskbits - 32 * ((nmaskbits - 1) / 32) <= 4 * d
    && (forall i :: 0 <= i < len && i < |content| - 1 ==> content[i] == text[i] && content[i] in "0123456789abcdef,")
    && (len < |content| ==> content[..len] == text && content[len] as int == 0)
    && (0 < |content| <= len ==> content[|content| - 1] as int == 0)
  }

  lemma WrittenText(content: string, len: nat, v: nat, nmaskbits: nat)
    requires nmaskbits > 0 && len == |Printed(v, nmaskbits)| && Stored(content, Printed(v, nmaskbits))
    ensures Written(content, len, v, nmaskbits)
  {
    var text := Printed(v, nmaskbits);
    forall i | 0 <= i < len && i < |content| - 1
      ensures content[i] == text[i] && content[i] in "0123456789abcdef,"
    {
      var k := if len < |content| then len else |content| - 1;
      assert content[..k][i] == text[..k][i];
      PrintedLetters(v, nmaskbits, i);
    }
    PrintedLength(v, nmaskbits);
  }

  // bitmap_scnprintf. No call of snprintf may start beyond the buffer; every piece but the first has nine
  // characters.
  method Scnprintf(buf: array<char>, maskp: array<Word>, nmaskbits: nat) returns (len: nat)
    requires BitsToLongs(nmaskbits) <= maskp.Length
    requires |Printed(Number(maskp, nmaskbits) % Pow2(nmaskbits), nmaskbits)| <= buf.Length + 9
    modifies buf
    ensures len == |Printed(old(Number(maskp, nmaskbits)) % Pow2(nmaskbits), nmaskbits)|
    ensures nmaskbits > 0 ==> Written(buf[..], len, old(Number(maskp, nmaskbits)) % Pow2(nmaskbits), nmaskbits)
  {
    ghost var v: nat := Number(maskp, nmaskbits) % Pow2(nmaskbits);
    var chunksz, i := FirstChunk(nmaskbits);
    len := PrintGroups(buf, maskp, nmaskbits, i, chunksz, Printed(v, nmaskbits), v, GroupCount(nmaskbits));
    if nmaskbits > 0 {
      WrittenText(buf[..], len, v, nmaskbits);
    }
  }
}
