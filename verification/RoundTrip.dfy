/** Printing a bitmap and parsing the text again. */
module RoundTrip {
  import opened Bits
  import opened Words
  import opened Bitmap
  import opened Inlines
  import opened Hex
  import opened Layout
  import opened Printer
  import opened TextForm
  import opened Letters
  import opened Parser
  import opened Grammar
  import opened Characters

  // The groups of the text of v.
  function TextGroups(v: nat, w: nat): seq<string> {
    if v < 0x1_0000_0000 then [Fixed(v, w)] else TextGroups(v / 0x1_0000_0000, w) + [Fixed(v % 0x1_0000_0000, 8)]
  }

  lemma {:induction false} TextIsJoined(v: nat, w: nat)
    requires w > 0
    ensures AreGroups(TextGroups(v, w)) && TextGroups(v, w) != [] && Joined(TextGroups(v, w)) == Text(v, w)
  {
    if v >= 0x1_0000_0000 {
      var u: nat := v / 0x1_0000_0000;
      TextIsJoined(u, w);
      var gs, last := TextGroups(u, w), Fixed(v % 0x1_0000_0000, 8);
      assert (gs + [last])[..|gs|] == gs;
      assert Text(v, w) == Text(u, w) + "," + last;
    }
  }

  // The highest group of v.
  function HighestGroup(v: nat): nat {
    if v < 0x1_0000_0000 then v else HighestGroup(v / 0x1_0000_0000)
  }

  lemma {:induction false} MeaningOfText(v: nat, w: nat)
    requires w > 0 && HighestGroup(v) < Pow2(4 * w)
    ensures AreGroups(TextGroups(v, w)) && Fit32(TextGroups(v, w)) && Meaning(TextGroups(v, w)) == v
  {
    TextIsJoined(v, w);
    if v < 0x1_0000_0000 {
      FixedValue(v, w);
      NoWrap(v, Pow2(4 * w));
      MeaningOfOne(Fixed(v, w));
    } else {
      var u: nat, r: nat := v / 0x1_0000_0000, v % 0x1_0000_0000;
      TextIsJoined(u, w);
      MeaningOfText(u, w);
      FixedValue(r, 8);
      Pow2Of32();
      NoWrap(r, Pow2(32));
      MeaningOfMore(TextGroups(u, w), Fixed(r, 8));
    }
  }

  lemma MeaningOfOne(g: string)
    requires IsGroup(g)
    ensures Meaning([g]) == NumeralValue(g)
  {
    assert [g][..0] == [];
    assert Meaning([]) == 0;
  }

  lemma MeaningOfMore(gs: seq<string>, g: string)
    requires AreGroups(gs) && IsGroup(g)
    ensures AreGroups(gs + [g]) && Meaning(gs + [g]) == Join(NumeralValue(g), Meaning(gs), 32)
    ensures Fit32(gs + [g]) <==> Fit32(gs) && NumeralValue(g) < 0x1_0000_0000
  {
    assert (gs + [g])[..|gs|] == gs;
    Fit32Snoc(gs + [g]);
  }

  // ---------------------------------------------------------------------------
  // The leading group of the number shown fits in the top chunk
  // ---------------------------------------------------------------------------

  lemma {:induction false} HighestGroupFits(v: nat, c: nat)
    requires TopFits(v, c)
    ensures HighestGroup(v) < Pow2(c)
  {
    if v < 0x1_0000_0000 {
      Pow2Of32();
      BitLengthIff(v, 32);
      BitLengthIff(v, c);
    } else {
      var u: nat, r: nat := v / 0x1_0000_0000, v % 0x1_0000_0000;
      Pow2Of32();
      assert v == Join(r, u, 32);
      BitLengthJoin(r, u, 32);
      assert BitLength(u) > 0;
      assert (32 + BitLength(u) - 1) % 32 == (BitLength(u) - 1) % 32;
      HighestGroupFits(u, c);
    }
  }

  lemma ShownFits(v: nat, nmaskbits: nat)
    requires nmaskbits > 0
    ensures TopFits(Shown(v, nmaskbits), TopChunk(nmaskbits))
  {
    var c: nat := TopChunk(nmaskbits);
    var lead: nat := Lead(v, GroupCount(nmaskbits), c);
    var s: nat := Shown(v, nmaskbits);
    LeadProperty(v, GroupCount(nmaskbits), c);
    BitLengthIff(s, 32 * lead + c);
    if lead > 0 {
      BitLengthIff(s, 32 * lead);
      AboveLead(v, lead, c);
    }
    InTopChunk(s, lead, c);
  }

  lemma InTopChunk(s: nat, lead: nat, c: nat)
    requires c <= 32 && BitLength(s) <= 32 * lead + c && (lead > 0 ==> BitLength(s) > 32 * lead)
    ensures TopFits(s, c)
  {
    if s != 0 {
      var b: nat := BitLength(s);
      assert b > 0;
      InBlock(b - 1, lead, c);
    }
  }

  lemma InBlock(k: nat, lead: nat, c: nat)
    requires c <= 32 && 32 * lead <= k < 32 * lead + c
    ensures k % 32 < c
  {
  }

  // ---------------------------------------------------------------------------
  // Print, then parse
  // ---------------------------------------------------------------------------

  lemma ParsedTextOf(s: nat, w: nat, trail: string, n: nat)
    requires w > 0 && HighestGroup(s) < Pow2(4 * w) && s < Pow2(n) && AtEnd(trail)
    ensures Parsed(Text(s, w) + trail, n) == Accepted(s)
  {
    var gs := TextGroups(s, w);
    TextIsJoined(s, w);
    MeaningOfText(s, w);
    assert "" + Joined(gs) + trail == Text(s, w) + trail;
    ParsedWellFormed("", gs, trail, n);
  }

  lemma ShownFitsWidth(v: nat, nmaskbits: nat)
    requires nmaskbits > 0
    ensures HighestGroup(Shown(v, nmaskbits)) < Pow2(4 * Width(TopChunk(nmaskbits)))
  {
    var c: nat := TopChunk(nmaskbits);
    ShownFits(v, nmaskbits);
    HighestGroupFits(Shown(v, nmaskbits), c);
    Pow2Mono(c, 4 * Width(c));
  }

  // The text of a bitmap parses to the number it shows, whether a NUL or the end of the buffer ends it.
  lemma ParsedText(v: nat, nmaskbits: nat, trail: string)
    requires 0 < nmaskbits && v < Pow2(nmaskbits) && AtEnd(trail)
    ensures Parsed(Printed(v, nmaskbits) + trail, nmaskbits) == Accepted(Shown(v, nmaskbits))
  {
    PrintedInWidth(v, nmaskbits);
    ShownFitsWidth(v, nmaskbits);
    ShownBelow(v, nmaskbits);
    ParsedTextOf(Shown(v, nmaskbits), Width(TopChunk(nmaskbits)), trail, nmaskbits);
  }

  // The groups of a printed text.
  lemma PrintedGroups(v: nat, nmaskbits: nat) returns (gs: seq<string>)
    requires 0 < nmaskbits && v < Pow2(nmaskbits)
    ensures AreGroups(gs) && gs != [] && Joined(gs) == Printed(v, nmaskbits)
    ensures Fit32(gs) && Meaning(gs) == Shown(v, nmaskbits) < Pow2(nmaskbits)
  {
    var s: nat, w: nat := Shown(v, nmaskbits), Width(TopChunk(nmaskbits));
    gs := TextGroups(s, w);
    PrintedInWidth(v, nmaskbits);
    ShownFitsWidth(v, nmaskbits);
    ShownBelow(v, nmaskbits);
    TextIsJoined(s, w);
    MeaningOfText(s, w);
  }

  // A printed text and one more character that is not a digit.
  lemma CharacterAfterText(v: nat, nmaskbits: nat, c: char)
    requires 0 < nmaskbits && v < Pow2(nmaskbits) && c !in "0123456789abcdefABCDEF"
    ensures Parsed(Printed(v, nmaskbits) + [c], nmaskbits) ==
            if c as int in {0, 9, 10, 11, 12, 13, 32} || c == ',' then Accepted(Shown(v, nmaskbits))
            else Invalid(Shown(v, nmaskbits) / 0x1_0000_0000)
  {
    var gs := PrintedGroups(v, nmaskbits);
    CharacterAfter(gs, c, nmaskbits);
  }

  // A character that is not a digit, and a printed text.
  lemma CharacterBeforeText(v: nat, nmaskbits: nat, c: char)
    requires 0 < nmaskbits && v < Pow2(nmaskbits) && c !in "0123456789abcdefABCDEF"
    ensures Parsed([c] + Printed(v, nmaskbits), nmaskbits) ==
            if c as int in {9, 10, 11, 12, 13, 32} then Accepted(Shown(v, nmaskbits)) else Invalid(0)
  {
    var gs := PrintedGroups(v, nmaskbits);
    CharacterBefore(gs, c, nmaskbits);
  }

  // A printed text in a buffer that goes on after the zero byte.
  lemma ZeroAfterText(v: nat, nmaskbits: nat, junk: string)
    requires 0 < nmaskbits && v < Pow2(nmaskbits)
    ensures Parsed(Printed(v, nmaskbits) + ([0 as char] + junk), nmaskbits) == Parsed(Printed(v, nmaskbits), nmaskbits)
    ensures Parsed(Printed(v, nmaskbits), nmaskbits) == Accepted(Shown(v, nmaskbits))
  {
    var text := Printed(v, nmaskbits);
    if text != "" {
      PrintedAt(v, nmaskbits, 0, 0, text, Nibble(Shown(v, nmaskbits), 0));
      NoCommaDigit(Nibble(Shown(v, nmaskbits), 0));
    }
    ZeroEndsText(text, junk, nmaskbits);
    assert text + "" == text;
    ParsedText(v, nmaskbits, "");
  }

  lemma NoCommaDigit(d: nat)
    requires d < 16
    ensures "0123456789abcdef"[d] != ','
  {
    LowerDigit(d);
  }

  // The round trip gives the bitmap back exactly when its highest group fits in its top chunk.
  lemma RoundTripExactly(v: nat, nmaskbits: nat, trail: string)
    requires 0 < nmaskbits && v < Pow2(nmaskbits) && AtEnd(trail)
    ensures Parsed(Printed(v, nmaskbits) + trail, nmaskbits) == Accepted(v) <==> TopFits(v, TopChunk(nmaskbits))
  {
    ParsedText(v, nmaskbits, trail);
    ShownExactly(v, nmaskbits);
  }

  // Two bitmaps print alike exactly when their texts show the same number.
  lemma SameTextExactly(x: nat, y: nat, nmaskbits: nat)
    requires 0 < nmaskbits && x < Pow2(nmaskbits) && y < Pow2(nmaskbits)
    ensures Printed(x, nmaskbits) == Printed(y, nmaskbits) <==> Shown(x, nmaskbits) == Shown(y, nmaskbits)
    ensures nmaskbits % 32 == 0 || nmaskbits <= 32 ==> (Printed(x, nmaskbits) == Printed(y, nmaskbits) <==> x == y)
  {
    ParsedText(x, nmaskbits, "");
    ParsedText(y, nmaskbits, "");
    PrintedInWidth(x, nmaskbits);
    PrintedInWidth(y, nmaskbits);
    if nmaskbits % 32 == 0 || nmaskbits <= 32 {
      AlwaysFits(x, nmaskbits);
      AlwaysFits(y, nmaskbits);
      ShownExactly(x, nmaskbits);
      ShownExactly(y, nmaskbits);
    }
  }

  // Whatever was printed is a fixed point: printing what it parses to gives the same text.
  lemma PrintedTextIsStable(v: nat, nmaskbits: nat)
    requires 0 < nmaskbits && v < Pow2(nmaskbits)
    ensures Printed(Shown(v, nmaskbits), nmaskbits) == Printed(v, nmaskbits)
  {
    ShownBelow(v, nmaskbits);
    ShownFits(v, nmaskbits);
    ShownExactly(Shown(v, nmaskbits), nmaskbits);
    PrintedInWidth(v, nmaskbits);
    PrintedInWidth(Shown(v, nmaskbits), nmaskbits);
  }

  // The text of a bitmap in a buffer, ended by the length that the printer returns or by its NUL.
  lemma ParsedBuffer(content: string, v: nat, nmaskbits: nat, end: nat)
    requires 0 < nmaskbits && v < Pow2(nmaskbits) && |Printed(v, nmaskbits)| <= end <= |content|
    requires content[..|Printed(v, nmaskbits)|] == Printed(v, nmaskbits)
    requires end == |Printed(v, nmaskbits)| || content[|Printed(v, nmaskbits)|] == NUL
    ensures Parsed(content[..end], nmaskbits) == Accepted(Shown(v, nmaskbits))
  {
    var trail := content[|Printed(v, nmaskbits)|..end];
    assert content[..end] == Printed(v, nmaskbits) + trail;
    assert SkipBlank(trail) == trail;
    ParsedText(v, nmaskbits, trail);
  }

  // A number below the width with the set of another number is its low part.
  lemma SameSet(s: nat, x: nat, nmaskbits: nat)
    requires s < Pow2(nmaskbits)
    ensures Members(s, nmaskbits) == Members(x, nmaskbits) <==> s == x % Pow2(nmaskbits)
  {
    MembersDetermine(s, x, nmaskbits);
    NoWrap(s, Pow2(nmaskbits));
  }

  // Both functions in turn, on real buffers: out receives what the text of maskp shows, whether the parser is
  // given the length that the printer returned or the whole buffer, in which the NUL ends the text.
  method PrintThenParse(buf: array<char>, maskp: array<Word>, out: array<Word>, nmaskbits: nat, whole: bool)
    returns (status: Status)
    requires Fits(maskp, nmaskbits) && Fits(out, nmaskbits)
    requires 9 * GroupCount(nmaskbits) <= buf.Length
    modifies buf, out
    ensures status == OK
    ensures Number(out, nmaskbits) == Shown(old(Number(maskp, nmaskbits)) % Pow2(nmaskbits), nmaskbits)
    ensures Set(out, nmaskbits) == old(Set(maskp, nmaskbits)) <==>
            TopFits(old(Number(maskp, nmaskbits)) % Pow2(nmaskbits), TopChunk(nmaskbits))
  {
    ghost var x: nat := Number(maskp, nmaskbits);
    ghost var v: nat := x % Pow2(nmaskbits);
    RoomForText(v, nmaskbits);
    var len := Scnprintf(buf, maskp, nmaskbits);
    var end := if whole then buf.Length else len;
    assert Parsed(buf[..end], nmaskbits) == Accepted(Shown(v, nmaskbits)) by {
      ParsedBuffer(buf[..], v, nmaskbits, end);
      assert buf[..][..end] == buf[..end] && buf[..][..len] == buf[..len];
    }
    status := Parse(buf, end, out, nmaskbits);
    ShownExactly(v, nmaskbits);
    ShownBelow(v, nmaskbits);
    SameSet(Shown(v, nmaskbits), x, nmaskbits);
  }
}
