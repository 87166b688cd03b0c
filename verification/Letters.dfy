/** The characters of a printed text, one by one, and how many there are. */
module Letters {
  import opened Bits
  import opened Words
  import opened Hex
  import opened Layout
  import opened TextForm

  lemma HexDigitIs(d: nat)
    requires d < 16
    ensures HexDigit(d) == "0123456789abcdef"[d]
  {
  }

  // Digit k of a number, from the lowest.
  function Nibble(v: nat, k: nat): (d: nat)
    ensures d < 16
    decreases k
  {
    if k == 0 then v % 16 else Nibble(v / 16, k - 1)
  }

  lemma {:induction false} NibbleIsHigh(v: nat, k: nat)
    ensures Nibble(v, k) == High(v, 4 * k) % 16
    decreases k
  {
    if k > 0 {
      NibbleIsHigh(v / 16, k - 1);
      Pow2Product(2, 2, 4, 4);
      HighHigh(v, 4, 4 * (k - 1));
    }
  }

  // Bit i of digit k.
  lemma BitNibble(v: nat, k: nat, i: nat)
    requires i < 4
    ensures Bit(Nibble(v, k), i) == Bit(v, 4 * k + i)
  {
    NibbleIsHigh(v, k);
    Pow2Product(2, 2, 4, 4);
    BitMod(High(v, 4 * k), 4, i);
    BitDiv(v, 4 * k, i);
  }

  lemma {:induction false} FixedAt(v: nat, w: nat, k: nat)
    requires k < w
    ensures Fixed(v, w)[w - 1 - k] == HexDigit(Nibble(v, k))
    decreases w
  {
    if k > 0 {
      FixedAt(v / 16, w - 1, k - 1);
    }
  }

  // The eight low digits are those of the lowest group.
  lemma NibbleOfLow(v: nat, k: nat)
    requires k < 8
    ensures Nibble(v % 0x1_0000_0000, k) == Nibble(v, k)
  {
    var r: nat := v % 0x1_0000_0000;
    Pow2Of32();
    Pow2Product(2, 2, 4, 4);
    forall i | 0 <= i < 4
      ensures Bit(Nibble(r, k), i) == Bit(Nibble(v, k), i)
    {
      BitNibble(r, k, i);
      BitNibble(v, k, i);
      BitMod(v, 32, 4 * k + i);
    }
    BitsDetermine(Nibble(r, k), Nibble(v, k), 4);
  }

  // The digits above them are those of the groups above.
  lemma NibbleOfHigh(v: nat, k: nat)
    ensures Nibble(v / 0x1_0000_0000, k) == Nibble(v, k + 8)
  {
    Pow2Of32();
    NibbleIsHigh(v / 0x1_0000_0000, k);
    NibbleIsHigh(v, k + 8);
    HighHigh(v, 32, 4 * k);
  }

  // The character of a text that a group of nine ends, at g groups and b places from the end.
  lemma GroupAppended(s: string, head: string, last: string, g: nat, b: nat, c: char)
    requires s == head + last && |last| == 9 && b < 9 && 9 * g + b < |s|
    requires g == 0 ==> c == last[8 - b]
    requires g > 0 ==> c == head[|head| - 1 - (9 * (g - 1) + b)]
    ensures s[|s| - 1 - (9 * g + b)] == c
  {
  }

  lemma LastGroupAt(v: nat, b: nat, d: nat, last: string)
    requires b < 9 && d < 16 && (b < 8 ==> d == Nibble(v, b))
    requires last == "," + Fixed(v % 0x1_0000_0000, 8)
    ensures last[8 - b] == if b == 8 then ',' else HexDigit(d)
  {
    if b < 8 {
      LastDigitAt(v, b, d, Fixed(v % 0x1_0000_0000, 8));
    }
  }

  lemma LastDigitAt(v: nat, b: nat, d: nat, digits: string)
    requires b < 8 && d == Nibble(v, b) && digits == Fixed(v % 0x1_0000_0000, 8)
    ensures digits[7 - b] == HexDigit(d)
  {
    FixedAt(v % 0x1_0000_0000, 8, b);
    NibbleOfLow(v, b);
  }

  // The characters of a text from its end, in groups of nine: every ninth is a comma, the others are digits.
  lemma {:induction false} TextAt(v: nat, w: nat, g: nat, b: nat, d: nat, s: string)
    requires 0 < w <= 8 && s == Text(v, w) && b < 9 && 9 * g + b < |s|
    requires d < 16 && (b < 8 ==> d == Nibble(v, 8 * g + b))
    ensures s[|s| - 1 - (9 * g + b)] == if b == 8 then ',' else HexDigit(d)
    decreases v
  {
    if v < 0x1_0000_0000 {
      FixedAt(v, w, b);
    } else {
      var u: nat, r: nat := v / 0x1_0000_0000, v % 0x1_0000_0000;
      var head, last := Text(u, w), "," + Fixed(r, 8);
      if g == 0 {
        LastGroupAt(v, b, d, last);
      } else {
        NibbleOfHigh(v, 8 * (g - 1) + b);
        TextAt(u, w, g - 1, b, d, head);
      }
      GroupAppended(s, head, last, g, b, if b == 8 then ',' else HexDigit(d));
    }
  }

  lemma PrintedAsText(v: nat, nmaskbits: nat) returns (s: nat, w: nat)
    requires nmaskbits > 0
    ensures s == Shown(v, nmaskbits) && 0 < w <= 8 && Printed(v, nmaskbits) == Text(s, w)
  {
    s, w := Shown(v, nmaskbits), Width(TopChunk(nmaskbits));
    PrintedInWidth(v, nmaskbits);
    LeadingWidth(nmaskbits);
  }

  // Every character of a printed text, g groups of nine and b places from its end: a comma, or digit 8 g + b.
  lemma PrintedAt(v: nat, nmaskbits: nat, g: nat, b: nat, text: string, d: nat)
    requires nmaskbits > 0 && text == Printed(v, nmaskbits) && b < 9 && 9 * g + b < |text|
    requires d == Nibble(Shown(v, nmaskbits), 8 * g + b)
    ensures text[|text| - 1 - (9 * g + b)] == if b == 8 then ',' else "0123456789abcdef"[d]
  {
    var s, w := PrintedAsText(v, nmaskbits);
    TextAt(s, w, g, b, d, text);
    HexDigitIs(d);
  }

  // Nothing but digits, lowercase letters and commas is printed.
  lemma PrintedLetters(v: nat, nmaskbits: nat, i: nat)
    requires i < |Printed(v, nmaskbits)|
    ensures Printed(v, nmaskbits)[i] in "0123456789abcdef,"
  {
    var s, w := PrintedAsText(v, nmaskbits);
    TextLetters(s, w, i, Printed(v, nmaskbits));
  }

  lemma TextLetters(v: nat, w: nat, i: nat, s: string)
    requires 0 < w <= 8 && s == Text(v, w) && i < |s|
    ensures s[i] in "0123456789abcdef,"
  {
    var j: nat := |s| - 1 - i;
    var g: nat, b: nat := j / 9, j % 9;
    DivMod(j, 9);
    var d: nat := Nibble(v, 8 * g + b);
    TextAt(v, w, g, b, d, s);
    IsLetter(d);
  }

  lemma IsLetter(d: nat)
    requires d < 16
    ensures HexDigit(d) in "0123456789abcdef," && ',' in "0123456789abcdef,"
  {
    HexDigitIs(d);
    assert "0123456789abcdef"[d] == "0123456789abcdef,"[d] && "0123456789abcdef,"[16] == ',';
  }

  // How many characters are printed: nine for each group below the leading one, and for that one the least
  // number of digits that covers the bits above the full groups of the width.
  lemma PrintedLength(v: nat, nmaskbits: nat)
    requires nmaskbits > 0
    ensures var d := |Printed(v, nmaskbits)| - 9 * (Groups(Shown(v, nmaskbits)) - 1);
            4 * (d - 1) < nmaskbits - 32 * ((nmaskbits - 1) / 32) <= 4 * d
  {
    PrintedInWidth(v, nmaskbits);
    TextLength(Shown(v, nmaskbits), Width(TopChunk(nmaskbits)));
    LeadingWidth(nmaskbits);
  }
}
