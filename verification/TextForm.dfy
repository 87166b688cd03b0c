/** What bitmap_scnprintf prints, as a function of one number; when that number is the bitmap's. */
module TextForm {
  import opened Bits
  import opened Words
  import opened Hex
  import opened Layout

  // v in groups of 8 digits separated by commas, the leading group in w digits.
  function Text(v: nat, w: nat): string {
    if v < 0x1_0000_0000 then Fixed(v, w) else Text(v / 0x1_0000_0000, w) + ("," + Fixed(v % 0x1_0000_0000, 8))
  }

  // The number whose digits appear in the text printed for v.
  function Shown(v: nat, nmaskbits: nat): nat {
    if nmaskbits == 0 then 0
    else v % Pow2(32 * Lead(v, GroupCount(nmaskbits), TopChunk(nmaskbits)) + TopChunk(nmaskbits))
  }

  // ---------------------------------------------------------------------------
  // The printed text is the text of the number shown
  // ---------------------------------------------------------------------------

  lemma LowGroups(v: nat, m: nat, k: nat)
    requires k == 32 + m
    ensures v % Pow2(k) / 0x1_0000_0000 == v / 0x1_0000_0000 % Pow2(m)
    ensures v % Pow2(k) % 0x1_0000_0000 == v % 0x1_0000_0000
  {
    Pow2Of32();
    Pow2Above(32, m, k, 0x1_0000_0000);
    DivDiv(v, 0x1_0000_0000, Pow2(m));
    var low: nat, r: nat := v / 0x1_0000_0000 % Pow2(m), v % 0x1_0000_0000;
    DivModUnique(v % Pow2(k), 0x1_0000_0000, low, r);
  }

  lemma GroupDigits(v: nat, c: nat)
    requires 0 < c <= 32
    ensures Padded(v % Pow2(c), Width(c)) == Fixed(v % Pow2(c), Width(c))
    ensures v % Pow2(c) < 0x1_0000_0000
  {
    Pow2Mono(c, 4 * Width(c));
    Pow2Of32();
    Pow2Mono(c, 32);
    PaddedIsFixed(v % Pow2(c), Width(c));
  }

  lemma {:induction false} TailSplit(v: nat, g: nat)
    ensures Tail(v, g + 1) == Tail(v / 0x1_0000_0000, g) + ("," + Fixed(v % 0x1_0000_0000, 8))
  {
    if g == 0 {
      OneGroup(v);
    } else {
      var u: nat := v / 0x1_0000_0000;
      TailSplit(v, g - 1);
      TailStep(v, g);
      TailStep(u, g - 1);
      ConcatAssoc("," + Padded(Group(u, g - 1, 32), 8), Tail(u, g - 1), "," + Fixed(v % 0x1_0000_0000, 8));
    }
  }

  lemma OneGroup(v: nat)
    ensures Tail(v, 1) == Tail(v / 0x1_0000_0000, 0) + ("," + Fixed(v % 0x1_0000_0000, 8))
  {
    GroupDigits(v, 32);
    assert Pow2(32) == 0x1_0000_0000 by { Pow2Of32(); }
    TailStep(v, 0);
    EmptyEnds("," + Fixed(v % 0x1_0000_0000, 8));
  }

  lemma EmptyEnds(s: string)
    ensures s + "" == "" + s
  {
  }

  lemma TailStep(v: nat, g: nat)
    ensures Tail(v, g + 1) == "," + Padded(Group(v, g, 32), 8) + Tail(v, g)
  {
    var h := g + 1;
    assert Tail(v, h) == "," + Padded(Group(v, h - 1, 32), Width(32)) + Tail(v, h - 1);
  }

  // A group that is not 0 keeps the low part that ends with it at or above the groups below.
  lemma AboveLead(v: nat, lead: nat, c: nat)
    requires Group(v, lead, c) != 0
    ensures v % Pow2(32 * lead + c) >= Pow2(32 * lead) > 0
  {
    var s: nat := v % Pow2(32 * lead + c);
    if s < Pow2(32 * lead) {
      forall b | 0 <= b < c
        ensures Bit(0, b) == Bit(Group(v, lead, c), b)
      {
        BitGroup(v, lead, c, b);
        BitMod(v, 32 * lead + c, 32 * lead + b);
        BitSmall(s, 32 * lead, 32 * lead + b);
        BitZero(b);
      }
      GroupBound(v, lead, c);
      BitsDetermine(Group(v, lead, c), 0, c);
    }
  }

  lemma PrintedStep(v: nat, lead: nat, c: nat)
    requires lead > 0
    ensures PrintedFrom(v, lead, c) ==
            PrintedFrom(v / 0x1_0000_0000, lead - 1, c) + ("," + Fixed(v % 0x1_0000_0000, 8))
  {
    var u: nat := v / 0x1_0000_0000;
    TailSplit(v, lead - 1);
    ConcatAssoc(Padded(Group(u, lead - 1, c), Width(c)), Tail(u, lead - 1), "," + Fixed(v % 0x1_0000_0000, 8));
  }

  // A text and one more group make the text of the number with one more group.
  lemma TextStep(v: nat, m: nat, k: nat, w: nat, text: string, whole: string)
    requires k == 32 + m && v / 0x1_0000_0000 % Pow2(m) != 0
    requires text == Text(v / 0x1_0000_0000 % Pow2(m), w)
    requires whole == text + ("," + Fixed(v % 0x1_0000_0000, 8))
    ensures whole == Text(v % Pow2(k), w)
  {
    var x: nat := v % Pow2(k);
    LowGroups(v, m, k);
    assert x >= 0x1_0000_0000;
  }

  lemma GroupStep(v: nat, g: nat, c: nat)
    requires g > 0
    ensures Group(v, g, c) == Group(v / 0x1_0000_0000, g - 1, c)
  {
  }

  lemma {:induction false} PrintedFromIsText(v: nat, lead: nat, c: nat)
    requires 0 < c <= 32
    requires lead == 0 || Group(v, lead, c) != 0
    ensures PrintedFrom(v, lead, c) == Text(v % Pow2(32 * lead + c), Width(c))
    decreases lead
  {
    if lead == 0 {
      LeadingGroup(v, c);
    } else {
      var u: nat := v / 0x1_0000_0000;
      var m: nat := 32 * (lead - 1) + c;
      assert Group(u, lead - 1, c) != 0 by { GroupStep(v, lead, c); }
      assert u % Pow2(m) != 0 by { AboveLead(u, lead - 1, c); }
      PrintedFromIsText(u, lead - 1, c);
      PrintedStep(v, lead, c);
      TextStep(v, m, 32 * lead + c, Width(c), PrintedFrom(u, lead - 1, c), PrintedFrom(v, lead, c));
    }
  }

  lemma LeadingGroup(v: nat, c: nat)
    requires 0 < c <= 32
    ensures PrintedFrom(v, 0, c) == Text(v % Pow2(c), Width(c))
  {
    GroupDigits(v, c);
    assert Tail(v, 0) == "";
  }

  lemma {:induction false} LeadProperty(v: nat, g: nat, c: nat)
    ensures Lead(v, g, c) == 0 || (Lead(v, g, c) < g && Group(v, Lead(v, g, c), c) != 0)
  {
    if g > 1 && Group(v, g - 1, c) == 0 {
      LeadProperty(v, g - 1, c);
    }
  }

  lemma PrintedInWidth(v: nat, nmaskbits: nat)
    requires nmaskbits > 0
    ensures Printed(v, nmaskbits) == Text(Shown(v, nmaskbits), Width(TopChunk(nmaskbits)))
  {
    var g: nat, c: nat := GroupCount(nmaskbits), TopChunk(nmaskbits);
    var lead: nat := Lead(v, g, c);
    assert lead == 0 || Group(v, lead, c) != 0 by { LeadProperty(v, g, c); }
    PrintedFromIsText(v, lead, c);
  }

  lemma LeadingWidth(nmaskbits: nat)
    requires nmaskbits > 0
    ensures var d := Width(TopChunk(nmaskbits));
            0 < d <= 8 && 4 * (d - 1) < nmaskbits - 32 * ((nmaskbits - 1) / 32) <= 4 * d
  {
    var q: nat, r: nat := (nmaskbits - 1) / 32, (nmaskbits - 1) % 32;
    DivMod(nmaskbits - 1, 32);
    if r == 31 {
      DivModUnique(nmaskbits, 32, q + 1, 0);
    } else {
      DivModUnique(nmaskbits, 32, q, r + 1);
    }
    assert TopChunk(nmaskbits) == r + 1;
    DivMod(r + 4, 4);
  }

  // The text of the number shown, whose leading group takes the least number of digits that covers the bits
  // above the full groups of the width.
  lemma PrintedIsText(v: nat, nmaskbits: nat, d: nat)
    requires nmaskbits > 0 && 4 * (d - 1) < nmaskbits - 32 * ((nmaskbits - 1) / 32) <= 4 * d
    ensures Printed(v, nmaskbits) == Text(Shown(v, nmaskbits), d)
  {
    assert d == Width(TopChunk(nmaskbits)) by { LeadingWidth(nmaskbits); }
    PrintedInWidth(v, nmaskbits);
  }

  // ---------------------------------------------------------------------------
  // When the number shown is the number stored
  // ---------------------------------------------------------------------------

  // Groups above the highest nonzero one are passed over.
  lemma {:induction false} LeadAtTop(v: nat, g: nat, c: nat, h: nat)
    requires h < g && v < Pow2(32 * (h + 1))
    ensures Lead(v, g, c) == Lead(v, h + 1, c) <= h
    decreases g
  {
    LeadProperty(v, h + 1, c);
    if g > h + 1 {
      Pow2Mono(32 * (h + 1), 32 * (g - 1) + c);
      if Group(v, g - 1, c) != 0 {
        GroupIsHigh(v, g - 1, c);
        Pow2Mono(32 * (h + 1), 32 * (g - 1));
        DivModUnique(v, Pow2(32 * (g - 1)), 0, v);
        NoWrap(0, Pow2(c));
      }
      LeadAtTop(v, g - 1, c, h);
    }
  }

  lemma HighRange(v: nat, m: nat, c: nat)
    requires Pow2(m) <= v < Pow2(m + c)
    ensures 0 < High(v, m) < Pow2(c)
  {
    var high: nat := High(v, m);
    assert v == Pow2(m) * high + v % Pow2(m);
    Pow2Add(m, c);
    if high >= Pow2(c) {
      MulMono(Pow2(c), high, Pow2(m));
    }
  }

  // The highest group, when it fits in c bits, is the one that is printed first.
  lemma TopGroupRead(v: nat, h: nat, c: nat)
    requires h > 0 ==> Pow2(32 * h) <= v
    requires v < Pow2(32 * h + c)
    ensures Lead(v, h + 1, c) == h
  {
    if h > 0 {
      HighRange(v, 32 * h, c);
      GroupIsHigh(v, h, c);
      NoWrap(High(v, 32 * h), Pow2(c));
    }
  }

  // The highest group of v takes at most c bits.
  predicate TopFits(v: nat, c: nat) {
    v == 0 || (BitLength(v) - 1) % 32 < c
  }

  lemma ReadsTop(v: nat, g: nat, c: nat, b: nat, h: nat)
    requires v > 0 && b == BitLength(v) && h == (b - 1) / 32 < g && 0 < c <= 32
    ensures v % Pow2(32 * Lead(v, g, c) + c) == v <==> b <= 32 * h + c
  {
    BitLengthIff(v, 32 * (h + 1));
    LeadAtTop(v, g, c, h);
    BitLengthIff(v, 32 * h + c);
    BitLengthIff(v, 32 * h);
    if b <= 32 * h + c {
      TopGroupRead(v, h, c);
      NoWrap(v, Pow2(32 * h + c));
    } else {
      Pow2Mono(32 * Lead(v, g, c) + c, 32 * h + c);
    }
  }

  lemma InGroups(b: nat, nmaskbits: nat)
    requires 0 < b <= nmaskbits
    ensures (b - 1) / 32 < GroupCount(nmaskbits)
  {
    DivMod(b - 1, 32);
    DivMod(nmaskbits + 31, 32);
  }

  // The highest group h of a nonzero bitmap, whose highest bit is b - 1, and whether the text shows it.
  lemma ShownNonZero(v: nat, nmaskbits: nat, c: nat) returns (b: nat, h: nat)
    requires 0 < v < Pow2(nmaskbits) && c == TopChunk(nmaskbits)
    ensures b == BitLength(v) && 32 * h < b <= 32 * h + 32
    ensures Shown(v, nmaskbits) == v <==> b <= 32 * h + c
  {
    b := BitLength(v);
    h := (b - 1) / 32;
    DivMod(b - 1, 32);
    var g: nat := GroupCount(nmaskbits);
    assert b <= nmaskbits by { BitLengthIff(v, nmaskbits); }
    assert h < g by { InGroups(b, nmaskbits); }
    ReadsTop(v, g, c, b, h);
  }

  lemma FitsByLength(v: nat, c: nat, b: nat, h: nat)
    requires v > 0 && b == BitLength(v) && 32 * h < b <= 32 * h + 32
    ensures TopFits(v, c) <==> b <= 32 * h + c
  {
    DivModUnique(b - 1, 32, h, b - 1 - 32 * h);
  }

  lemma ShownZero(nmaskbits: nat)
    ensures Shown(0, nmaskbits) == 0
  {
    var m := 32 * Lead(0, GroupCount(nmaskbits), TopChunk(nmaskbits)) + TopChunk(nmaskbits);
    NoWrap(0, Pow2(m));
  }

  // The text shows the bitmap exactly when its highest group fits in the top chunk of the bitmap.
  lemma ShownExactly(v: nat, nmaskbits: nat)
    requires v < Pow2(nmaskbits)
    ensures Shown(v, nmaskbits) == v <==> TopFits(v, TopChunk(nmaskbits))
  {
    if v == 0 {
      ShownZero(nmaskbits);
    } else {
      var c: nat := TopChunk(nmaskbits);
      var b, h := ShownNonZero(v, nmaskbits, c);
      FitsByLength(v, c, b, h);
    }
  }

  // It does for every content when the width is a multiple of 32 or at most 32.
  lemma AlwaysFits(v: nat, nmaskbits: nat)
    requires v < Pow2(nmaskbits)
    requires nmaskbits % 32 == 0 || nmaskbits <= 32
    ensures TopFits(v, TopChunk(nmaskbits))
  {
    if v != 0 && nmaskbits % 32 != 0 {
      BitLengthIff(v, nmaskbits);
      NoWrap(nmaskbits, 32);
      NoWrap(BitLength(v) - 1, 32);
    }
  }

  // A width of 33 with bit 31 set: the text shows nothing.
  lemma HiddenBit()
    ensures Shown(0x8000_0000, 33) == 0 && Printed(0x8000_0000, 33) == "0"
  {
    assert Pow2(1) == 2;
    assert Group(0x8000_0000, 1, 1) == 0;
    assert GroupCount(33) == 2 && TopChunk(33) == 1;
    assert Lead(0x8000_0000, 2, 1) == Lead(0x8000_0000, 1, 1) == 0;
    assert Tail(0x8000_0000, 0) == "";
    assert Printed(0x8000_0000, 33) == Padded(0, 1) + "";
    assert Shortest(0) == [HexDigit(0)];
  }

  // ---------------------------------------------------------------------------
  // Length
  // ---------------------------------------------------------------------------

  // How many groups of 32 bits v has; 0 has one.
  function Groups(v: nat): (m: nat)
    ensures m > 0
  {
    if v < 0x1_0000_0000 then 1 else 1 + Groups(v / 0x1_0000_0000)
  }

  lemma {:induction false} TextLength(v: nat, w: nat)
    ensures |Text(v, w)| == w + 9 * (Groups(v) - 1)
  {
    if v >= 0x1_0000_0000 {
      TextLength(v / 0x1_0000_0000, w);
    }
  }

  lemma {:induction false} GroupsBound(v: nat, g: nat)
    requires g > 0 && v < Pow2(32 * g)
    ensures Groups(v) <= g
    decreases g
  {
    if v >= 0x1_0000_0000 {
      Pow2Of32();
      Pow2Add(32, 32 * (g - 1));
      if g > 1 {
        GroupsBound(v / 0x1_0000_0000, g - 1);
      }
    }
  }

  lemma ShownBelow(v: nat, nmaskbits: nat)
    ensures Shown(v, nmaskbits) <= v
  {
    if nmaskbits > 0 {
      LowBelow(v, Pow2(32 * Lead(v, GroupCount(nmaskbits), TopChunk(nmaskbits)) + TopChunk(nmaskbits)));
    }
  }

  lemma LowBelow(v: nat, p: nat)
    requires p > 0
    ensures v % p <= v
  {
    DivNonneg(v, p);
    MulMono(0, v / p, p);
  }

  // Nine characters for each group of the width hold the text and its NUL.
  lemma RoomForText(v: nat, nmaskbits: nat)
    requires v < Pow2(nmaskbits)
    ensures |Printed(v, nmaskbits)| < 9 * GroupCount(nmaskbits) + 1
    ensures nmaskbits > 0 ==> |Printed(v, nmaskbits)| < 9 * GroupCount(nmaskbits)
  {
    if nmaskbits > 0 {
      var s := Shown(v, nmaskbits);
      PrintedInWidth(v, nmaskbits);
      TextLength(s, Width(TopChunk(nmaskbits)));
      ShownBelow(v, nmaskbits);
      Pow2Mono(nmaskbits, 32 * GroupCount(nmaskbits));
      GroupsBound(s, GroupCount(nmaskbits));
    }
  }

  // For a width that is a multiple of 32, m groups take 9 m - 1 characters.
  lemma TextOfWholeGroups(v: nat, nmaskbits: nat)
    requires v < Pow2(nmaskbits) && nmaskbits > 0 && nmaskbits % 32 == 0
    ensures Printed(v, nmaskbits) == Text(v, 8) && |Printed(v, nmaskbits)| == 9 * Groups(v) - 1
  {
    PrintedInWidth(v, nmaskbits);
    AlwaysFits(v, nmaskbits);
    ShownExactly(v, nmaskbits);
    TextLength(v, 8);
  }
}
