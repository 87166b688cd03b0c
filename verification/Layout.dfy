/** How bitmap_scnprintf lays out a bitmap: its groups of 32 bits, the ones that are printed, and their digits. */
module Layout {
  import opened Bits
  import opened Words
  import opened Hex

  // The value of the c low bits of group g of v; a group has 32 bits.
  function Group(v: nat, g: nat, c: nat): nat
    decreases g
  {
    if g == 0 then v % Pow2(c) else Group(v / 0x1_0000_0000, g - 1, c)
  }

  lemma {:induction false} GroupIsHigh(v: nat, g: nat, c: nat)
    ensures Group(v, g, c) == High(v, 32 * g) % Pow2(c)
    decreases g
  {
    if g > 0 {
      Pow2Of32();
      GroupIsHigh(v / 0x1_0000_0000, g - 1, c);
      HighHigh(v, 32, 32 * (g - 1));
    }
  }

  lemma BitGroup(v: nat, g: nat, c: nat, b: nat)
    ensures Bit(Group(v, g, c), b) == (b < c && Bit(v, 32 * g + b))
  {
    GroupIsHigh(v, g, c);
    BitMod(High(v, 32 * g), c, b);
    BitDiv(v, 32 * g, b);
  }

  lemma GroupBound(v: nat, g: nat, c: nat)
    ensures Group(v, g, c) < Pow2(c)
  {
    GroupIsHigh(v, g, c);
  }

  // The size of the top group of a bitmap, in bits.
  function TopChunk(nmaskbits: nat): (c: nat)
    ensures 0 < c <= 32
  {
    if nmaskbits % 32 == 0 then 32 else nmaskbits % 32
  }

  function GroupCount(nmaskbits: nat): nat {
    (nmaskbits + 31) / 32
  }

  // The digits that c bits take.
  function Width(c: nat): nat {
    (c + 3) / 4
  }

  // Reading groups of c bits from group g - 1 downwards: the first that is not 0, or group 0.
  function Lead(v: nat, g: nat, c: nat): nat {
    if g <= 1 || Group(v, g - 1, c) != 0 then (if g == 0 then 0 else g - 1) else Lead(v, g - 1, c)
  }

  // The g low groups, each after a comma.
  function Tail(v: nat, g: nat): string {
    if g == 0 then "" else "," + Padded(Group(v, g - 1, 32), Width(32)) + Tail(v, g - 1)
  }

  // The leading group in the digits of c bits, then all groups below it.
  function PrintedFrom(v: nat, lead: nat, c: nat): string {
    Padded(Group(v, lead, c), Width(c)) + Tail(v, lead)
  }

  // What is printed for a bitmap of nmaskbits bits that holds v.
  function Printed(v: nat, nmaskbits: nat): string {
    if nmaskbits == 0 then ""
    else PrintedFrom(v, Lead(v, GroupCount(nmaskbits), TopChunk(nmaskbits)), TopChunk(nmaskbits))
  }
}
