/** Branch-free population counts and the binary search for the highest bit. */
module Weights {
  import opened Bits
  import opened Words

  // ---------------------------------------------------------------------------
  // Masks of n equal fields, and per-field bit counts
  // ---------------------------------------------------------------------------

  // 01 in each of n 2-bit fields.
  function Mask5(n: nat): nat {
    if n == 0 then 0 else 1 + 4 * Mask5(n - 1)
  }

  // 0011 in each of n 4-bit fields.
  function Mask3(n: nat): nat {
    if n == 0 then 0 else 3 + 16 * Mask3(n - 1)
  }

  // 00001111 in each of n bytes.
  function MaskF(n: nat): nat {
    if n == 0 then 0 else 15 + 256 * MaskF(n - 1)
  }

  // The number of ones among the low k bits of w.
  function Ones(w: nat, k: nat): (c: nat)
    ensures c <= k
  {
    if k == 0 then 0 else w % 2 + Ones(w / 2, k - 1)
  }

  // Each 2-bit field of w replaced by the number of ones in it.
  function PairCounts(w: nat, n: nat): nat {
    if n == 0 then 0 else Ones(w, 2) + 4 * PairCounts(w / 4, n - 1)
  }

  // Each 4-bit field of w replaced by the number of ones in it.
  function NibbleCounts(w: nat, n: nat): nat {
    if n == 0 then 0 else Ones(w, 4) + 16 * NibbleCounts(w / 16, n - 1)
  }

  // Each byte of w replaced by the number of ones in it.
  function ByteCounts(w: nat, n: nat): nat {
    if n == 0 then 0 else Ones(w, 8) + 256 * ByteCounts(w / 256, n - 1)
  }

  lemma {:induction false} OnesSplit(w: nat, j: nat, k: nat)
    ensures Ones(w, j + k) == Ones(w, j) + Ones(High(w, j), k)
    decreases j
  {
    if j > 0 {
      Halve(w, j);
      OnesSplit(w / 2, j - 1, k);
    }
  }

  lemma {:induction false} CountOnes(w: nat, k: nat)
    ensures Count(w) == Ones(w, k) + Count(High(w, k))
    decreases k
  {
    if k > 0 {
      Halve(w, k);
      CountOnes(w / 2, k - 1);
      CountStep(w);
    }
  }

  // ---------------------------------------------------------------------------
  // The three folding steps
  // ---------------------------------------------------------------------------

  // Masking works on the lowest field and on the fields above it separately.
  lemma AndField(x: nat, y: nat, k: nat, m: nat, n: nat)
    requires x < Pow2(n) && k <= n
    ensures Bitwise(AND, Join(x, y, n), Join(Pow2(k) - 1, m, n)) == Join(x % Pow2(k), Bitwise(AND, y, m), n)
  {
    Pow2Mono(k, n);
    BitwiseJoin(AND, x, y, Pow2(k) - 1, m, n);
    AndMask(x, k);
  }

  lemma AndPair(z: nat, mask: nat, x: nat, y: nat, m: nat)
    requires x < 4 && z == x + 4 * y && mask == 1 + 4 * m
    ensures Bitwise(AND, z, mask) == x % 2 + 4 * Bitwise(AND, y, m)
  {
    assert Pow2(1) == 2 && Pow2(2) == 4;
    AndField(x, y, 1, m, 2);
  }

  lemma AndNibble(z: nat, mask: nat, x: nat, y: nat, m: nat)
    requires x < 16 && z == x + 16 * y && mask == 3 + 16 * m
    ensures Bitwise(AND, z, mask) == x % 4 + 16 * Bitwise(AND, y, m)
  {
    assert Pow2(2) == 4;
    Pow2Product(2, 2, 4, 4);
    AndField(x, y, 2, m, 4);
  }

  lemma AndByte(z: nat, mask: nat, x: nat, y: nat, m: nat)
    requires x < 256 && z == x + 256 * y && mask == 15 + 256 * m
    ensures Bitwise(AND, z, mask) == x % 16 + 256 * Bitwise(AND, y, m)
  {
    Pow2Product(2, 2, 4, 4);
    Pow2Of8();
    AndField(x, y, 4, m, 8);
  }

  lemma {:induction false} FoldPairs(w: nat, n: nat)
    requires w < Pow2(2 * n)
    ensures Bitwise(AND, w / 2, Mask5(n)) <= w
    ensures w - Bitwise(AND, w / 2, Mask5(n)) == PairCounts(w, n)
  {
    if n == 0 {
      BitwiseZero(AND, w / 2);
    } else {
      NextPair(n);
      QuarterBound(w, Pow2(2 * (n - 1)));
      FoldPairs(w / 4, n - 1);
      FoldPair(w, Mask5(n), Mask5(n - 1));
    }
  }

  lemma NextPair(n: nat)
    requires n > 0
    ensures Pow2(2 * n) == 4 * Pow2(2 * (n - 1))
  {
    Pow2Above(2, 2 * (n - 1), 2 * n, 4);
  }

  lemma QuarterBound(w: nat, p: nat)
    requires w < 4 * p
    ensures w / 4 < p
  {
  }

  lemma FoldPair(w: nat, mask: nat, m: nat)
    requires mask == 1 + 4 * m
    ensures Bitwise(AND, w / 2, mask) == w / 2 % 2 + 4 * Bitwise(AND, w / 4 / 2, m)
    ensures w == Ones(w, 2) + w / 2 % 2 + 4 * (w / 4)
  {
    var h: nat, q: nat := w / 2, w / 4;
    SplitPair(w);
    SplitPair(h);
    assert h / 4 == q / 2;
    HalfOf(h % 4, h % 2, h / 2 % 2);
    DivMod(h, 4);
    AndPair(h, mask, h % 4, q / 2, m);
    OnesOfPair(w);
  }

  lemma SplitPair(w: nat)
    ensures w / 4 == w / 2 / 2 && w % 4 == w % 2 + 2 * (w / 2 % 2)
    ensures w == w % 2 + 2 * (w / 2 % 2) + 4 * (w / 4)
  {
    DivDiv(w, 2, 2);
    DivMod(w, 4);
  }

  lemma OnesOfPair(w: nat)
    ensures Ones(w, 2) == w % 2 + w / 2 % 2
  {
    assert Ones(w / 2, 1) == w / 2 % 2 + Ones(w / 2 / 2, 0);
  }

  lemma {:induction false} FoldNibbles(w: nat, n: nat)
    ensures var x := PairCounts(w, 2 * n);
            Bitwise(AND, x, Mask3(n)) + Bitwise(AND, x / 4, Mask3(n)) == NibbleCounts(w, n)
  {
    if n == 0 {
      BitwiseZero(AND, 0);
    } else {
      var y: nat, m: nat := PairCounts(w / 16, 2 * (n - 1)), Mask3(n - 1);
      FoldNibbles(w / 16, n - 1);
      TwoPairs(w, n);
      OnesOfNibble(w);
      FoldNibble(PairCounts(w, 2 * n), Mask3(n), Ones(w, 2), Ones(w / 4, 2), y, m, NibbleCounts(w, n));
    }
  }

  // The two pairs of the lowest nibble.
  lemma TwoPairs(w: nat, n: nat)
    requires n > 0
    ensures PairCounts(w, 2 * n) == Ones(w, 2) + 4 * Ones(w / 4, 2) + 16 * PairCounts(w / 16, 2 * (n - 1))
  {
    var h: nat, m: nat := w / 4, 2 * (n - 1);
    assert h / 4 == w / 16 by { DivDiv(w, 4, 4); }
    OnePair(w, m + 2);
    OnePair(h, m + 1);
  }

  lemma OnesOfNibble(w: nat)
    ensures Ones(w, 4) == Ones(w, 2) + Ones(w / 4, 2)
  {
    OnesSplit(w, 2, 2);
    assert Pow2(2) == 4;
  }

  lemma OnePair(w: nat, n: nat)
    requires n > 0
    ensures PairCounts(w, n) == Ones(w, 2) + 4 * PairCounts(w / 4, n - 1)
  {
  }

  lemma FoldNibble(x: nat, mask: nat, f0: nat, f1: nat, y: nat, m: nat, sum: nat)
    requires f0 <= 2 && f1 <= 2
    requires x == f0 + 4 * f1 + 16 * y && mask == 3 + 16 * m
    requires sum == f0 + f1 + 16 * (Bitwise(AND, y, m) + Bitwise(AND, y / 4, m))
    ensures Bitwise(AND, x, mask) + Bitwise(AND, x / 4, mask) == sum
  {
    DropPair(f0, f1, y);
    AndNibble(x, mask, f0 + 4 * f1, y, m);
    AndNibble(x / 4, mask, f1 + 4 * (y % 4), y / 4, m);
  }

  lemma DropPair(f0: nat, f1: nat, y: nat)
    requires f0 < 4 && f1 < 4
    ensures (f0 + 4 * f1 + 16 * y) / 4 == f1 + 4 * (y % 4) + 16 * (y / 4)
    ensures (f0 + 4 * f1) % 4 == f0 && (f1 + 4 * (y % 4)) % 4 == f1
  {
    DivMod(y, 4);
    DivModUnique(f0 + 4 * f1 + 16 * y, 4, f1 + 4 * y, f0);
    DivModUnique(f0 + 4 * f1, 4, f1, f0);
    DivModUnique(f1 + 4 * (y % 4), 4, y % 4, f1);
  }

  lemma {:induction false} FoldBytes(w: nat, n: nat, x: nat, mask: nat)
    requires x == NibbleCounts(w, 2 * n) && mask == MaskF(n)
    ensures Bitwise(AND, x + x / 16, mask) == ByteCounts(w, n)
    decreases n
  {
    if n == 0 {
      BitwiseZero(AND, 0);
    } else {
      var y: nat, m: nat := NibbleCounts(w / 256, 2 * (n - 1)), MaskF(n - 1);
      FoldBytes(w / 256, n - 1, y, m);
      TwoNibbles(w, n);
      OnesOfByte(w);
      LowNibbleSmall(w / 256, 2 * (n - 1));
      OneByte(w, n);
      FoldByte(x, mask, Ones(w, 4), Ones(w / 16, 4), y, m, ByteCounts(w / 256, n - 1));
    }
  }

  lemma OneByte(w: nat, n: nat)
    requires n > 0
    ensures ByteCounts(w, n) == Ones(w, 8) + 256 * ByteCounts(w / 256, n - 1)
  {
  }

  // The two nibbles of the lowest byte.
  lemma TwoNibbles(w: nat, n: nat)
    requires n > 0
    ensures NibbleCounts(w, 2 * n) == Ones(w, 4) + 16 * Ones(w / 16, 4) + 256 * NibbleCounts(w / 256, 2 * (n - 1))
  {
    var h: nat, m: nat := w / 16, 2 * (n - 1);
    assert h / 16 == w / 256 by { DivDiv(w, 16, 16); }
    OneNibble(w, m + 2);
    OneNibble(h, m + 1);
  }

  lemma OnesOfByte(w: nat)
    ensures Ones(w, 8) == Ones(w, 4) + Ones(w / 16, 4)
  {
    OnesSplit(w, 4, 4);
    assert Pow2(4) == 16;
  }

  lemma OneNibble(w: nat, n: nat)
    requires n > 0
    ensures NibbleCounts(w, n) == Ones(w, 4) + 16 * NibbleCounts(w / 16, n - 1)
  {
  }

  lemma LowNibbleSmall(w: nat, n: nat)
    ensures NibbleCounts(w, n) % 16 <= 4
  {
    if n > 0 {
      OneNibble(w, n);
      LowNibble(Ones(w, 4), NibbleCounts(w / 16, n - 1));
    }
  }

  lemma LowNibble(a: nat, y: nat)
    requires a < 16
    ensures (a + 16 * y) / 16 == y && (a + 16 * y) % 16 == a
  {
    DivModUnique(a + 16 * y, 16, y, a);
  }

  lemma FoldByte(x: nat, mask: nat, g0: nat, g1: nat, y: nat, m: nat, c: nat)
    requires g0 <= 4 && g1 <= 4 && y % 16 <= 4
    requires x == g0 + 16 * g1 + 256 * y && mask == 15 + 256 * m
    requires c == Bitwise(AND, y + y / 16, m)
    ensures Bitwise(AND, x + x / 16, mask) == g0 + g1 + 256 * c
  {
    AddNibbles(g0, g1, y);
    AndByte(x + x / 16, mask, g0 + g1 + 16 * (g1 + y % 16), y + y / 16, m);
  }

  lemma AddNibbles(g0: nat, g1: nat, y: nat)
    requires g0 <= 4 && g1 <= 4 && y % 16 <= 4
    ensures var x := g0 + 16 * g1 + 256 * y;
            x + x / 16 == g0 + g1 + 16 * (g1 + y % 16) + 256 * (y + y / 16)
    ensures (g0 + g1 + 16 * (g1 + y % 16)) % 16 == g0 + g1
  {
    LowNibble(g0, g1 + 16 * y);
    LowNibble(g0 + g1, g1 + y % 16);
    DivMod(y, 16);
  }

  // ---------------------------------------------------------------------------
  // The masks and fields in use
  // ---------------------------------------------------------------------------

  lemma {:induction false} Mask5Value(n: nat)
    ensures 3 * Mask5(2 * n) == Pow2(4 * n) - 1
  {
    if n > 0 {
      Mask5Value(n - 1);
      NextNibble(n);
      TwoFields(2 * n);
    }
  }

  lemma {:induction false} Mask3Value(n: nat)
    ensures 5 * Mask3(n) == Pow2(4 * n) - 1
  {
    if n > 0 {
      Mask3Value(n - 1);
      NextNibble(n);
    }
  }

  lemma {:induction false} MaskFValue(n: nat)
    ensures 17 * MaskF(n) == Pow2(8 * n) - 1
  {
    if n > 0 {
      MaskFValue(n - 1);
      NextByte(n);
    }
  }

  lemma TwoFields(n: nat)
    requires n > 1
    ensures Mask5(n) == 5 + 16 * Mask5(n - 2)
  {
  }

  lemma NextNibble(n: nat)
    requires n > 0
    ensures Pow2(4 * n) == 16 * Pow2(4 * (n - 1))
  {
    Pow2Product(2, 2, 4, 4);
    Pow2Above(4, 4 * (n - 1), 4 * n, 16);
  }

  lemma NextByte(n: nat)
    requires n > 0
    ensures Pow2(8 * n) == 256 * Pow2(8 * (n - 1))
  {
    Pow2Of8();
    Pow2Above(8, 8 * (n - 1), 8 * n, 256);
  }

  lemma {:induction false} NibbleCountsBound(w: nat, n: nat)
    ensures 15 * NibbleCounts(w, n) <= 4 * (Pow2(4 * n) - 1)
  {
    if n > 0 {
      NibbleCountsBound(w / 16, n - 1);
      OneNibble(w, n);
      NextNibble(n);
    }
  }

  lemma {:induction false} ByteCountsBound(w: nat, n: nat)
    ensures ByteCounts(w, n) < Pow2(8 * n)
  {
    if n > 0 {
      ByteCountsBound(w / 256, n - 1);
      NextByte(n);
    }
  }

  // The counts of the n low bytes of w, one by one, and what is above them.
  lemma {:induction false} CountsOfBytes(w: nat, n: nat) returns (d: seq<nat>, rest: nat)
    ensures |d| == n && forall k :: 0 <= k < n ==> d[k] <= 8
    ensures ByteCounts(w, n) == FromBytes(d)
    ensures Count(w) == Sum(d) + Count(rest)
    ensures rest == High(w, 8 * n)
  {
    if n == 0 {
      return [], w;
    }
    var d' := [];
    d', rest := CountsOfBytes(w / 256, n - 1);
    d := [Ones(w, 8)] + d';
    assert d[1..] == d';
    assert Count(w) == Ones(w, 8) + Count(w / 256) by { CountOnes(w, 8); Pow2Of8(); }
    assert rest == High(w, 8 * n) by { HighOfHigh(w, n); }
  }

  lemma HighOfHigh(w: nat, n: nat)
    requires n > 0
    ensures High(w / 256, 8 * (n - 1)) == High(w, 8 * n)
  {
    Pow2Of8();
    HighHigh(w, 8, 8 * (n - 1));
  }

  lemma Pow2Of8()
    ensures Pow2(8) == 256
  {
    Pow2Product(2, 2, 4, 4);
    Pow2Product(4, 4, 16, 16);
  }

  function FromBytes(d: seq<nat>): nat {
    if d == [] then 0 else d[0] + 256 * FromBytes(d[1..])
  }

  function Sum(d: seq<nat>): nat {
    if d == [] then 0 else d[0] + Sum(d[1..])
  }

  lemma FourDigits(d: seq<nat>)
    requires |d| >= 4
    ensures FromBytes(d) == d[0] + 0x100 * d[1] + 0x1_0000 * d[2] + 0x100_0000 * d[3] +
                            0x1_0000_0000 * FromBytes(d[4..])
    ensures Sum(d) == d[0] + d[1] + d[2] + d[3] + Sum(d[4..])
  {
    var d1 := d[1..];
    var d2 := d1[1..];
    var d3 := d2[1..];
    assert d3[1..] == d[4..];
  }

  lemma EightDigits(d: seq<nat>)
    requires |d| == 8
    ensures FromBytes(d) == d[0] + 0x100 * d[1] + 0x1_0000 * d[2] + 0x100_0000 * d[3] +
                            0x1_0000_0000 * d[4] + 0x100_0000_0000 * d[5] + 0x1_0000_0000_0000 * d[6] +
                            0x100_0000_0000_0000 * d[7]
    ensures Sum(d) == d[0] + d[1] + d[2] + d[3] + d[4] + d[5] + d[6] + d[7]
  {
    FourDigits(d);
    FourDigits(d[4..]);
  }

  // Multiplying by 0x01..01 gathers the sum of all bytes in the top byte.
  lemma GatherByMultiply(x: nat, d: seq<nat>)
    requires |d| == 8 && forall k :: 0 <= k < 8 ==> d[k] <= 8
    requires x == FromBytes(d)
    ensures x * 0x0101_0101_0101_0101 % 0x1_0000_0000_0000_0000 / 0x100_0000_0000_0000 == Sum(d)
  {
    EightDigits(d);
    GatherDigits(d[0], d[1], d[2], d[3], d[4], d[5], d[6], d[7]);
  }

  lemma GatherDigits(d0: nat, d1: nat, d2: nat, d3: nat, d4: nat, d5: nat, d6: nat, d7: nat)
    requires d0 <= 8 && d1 <= 8 && d2 <= 8 && d3 <= 8 && d4 <= 8 && d5 <= 8 && d6 <= 8 && d7 <= 8
    ensures var x := d0 + 0x100 * d1 + 0x1_0000 * d2 + 0x100_0000 * d3 + 0x1_0000_0000 * d4 +
                     0x100_0000_0000 * d5 + 0x1_0000_0000_0000 * d6 + 0x100_0000_0000_0000 * d7;
            x * 0x0101_0101_0101_0101 % 0x1_0000_0000_0000_0000 / 0x100_0000_0000_0000 ==
            d0 + d1 + d2 + d3 + d4 + d5 + d6 + d7
  {
    var c1 := d0 + d1;
    var c2 := c1 + d2;
    var c3 := c2 + d3;
    var c4 := c3 + d4;
    var c5 := c4 + d5;
    var c6 := c5 + d6;
    var sum := c6 + d7;
    var low := d0 + 0x100 * c1 + 0x1_0000 * c2 + 0x100_0000 * c3 + 0x1_0000_0000 * c4 +
               0x100_0000_0000 * c5 + 0x1_0000_0000_0000 * c6;
    var over := sum - d0 + 0x100 * (sum - c1) + 0x1_0000 * (sum - c2) + 0x100_0000 * (sum - c3) +
                0x1_0000_0000 * (sum - c4) + 0x100_0000_0000 * (sum - c5) + 0x1_0000_0000_0000 * (sum - c6);
    TopByte(over, sum, low);
  }

  lemma TopByte(over: nat, sum: nat, low: nat)
    requires sum < 0x100 && low < 0x100_0000_0000_0000
    ensures (0x1_0000_0000_0000_0000 * over + 0x100_0000_0000_0000 * sum + low)
            % 0x1_0000_0000_0000_0000 / 0x100_0000_0000_0000 == sum
  {
    var rest: nat := 0x100_0000_0000_0000 * sum + low;
    DivModUnique(0x1_0000_0000_0000_0000 * over + rest, 0x1_0000_0000_0000_0000, over, rest);
    DivModUnique(rest, 0x100_0000_0000_0000, sum, low);
  }

  // Adding the halves, then the quarters, gathers the sum of four bytes in the low byte.
  lemma GatherByShifts(x: nat, y: nat, d: seq<nat>)
    requires |d| == 4 && forall k :: 0 <= k < 4 ==> d[k] <= 8
    requires x == FromBytes(d) && y == x + x / 0x100
    ensures y + y / 0x1_0000 < 0x1_0000_0000 && (y + y / 0x1_0000) % 0x100 == Sum(d)
  {
    FourDigits(d);
    assert d[4..] == [];
    GatherFourDigits(d[0], d[1], d[2], d[3]);
  }

  lemma GatherFourDigits(d0: nat, d1: nat, d2: nat, d3: nat)
    requires d0 <= 8 && d1 <= 8 && d2 <= 8 && d3 <= 8
    ensures var x := d0 + 0x100 * d1 + 0x1_0000 * d2 + 0x100_0000 * d3;
            var y := x + x / 0x100;
            y + y / 0x1_0000 < 0x1_0000_0000 && (y + y / 0x1_0000) % 0x100 == d0 + d1 + d2 + d3
  {
    var x: nat := d0 + 0x100 * d1 + 0x1_0000 * d2 + 0x100_0000 * d3;
    DivModUnique(x, 0x100, d1 + 0x100 * d2 + 0x1_0000 * d3, d0);
    var y: nat := x + (d1 + 0x100 * d2 + 0x1_0000 * d3);
    DivModUnique(y, 0x1_0000, d2 + d3 + 0x100 * d3, d0 + d1 + 0x100 * (d1 + d2));
    var z: nat := y + (d2 + d3 + 0x100 * d3);
    DivModUnique(z, 0x100, d1 + d2 + d3 + 0x100 * (d2 + d3) + 0x1_0000 * d3, d0 + d1 + d2 + d3);
  }

  // ---------------------------------------------------------------------------
  // bitmap.h
  // ---------------------------------------------------------------------------

  lemma ShrBy(x: Word, s: nat, d: nat)
    requires Pow2(s) == d
    ensures Shr(x, s) == x / d
  {
  }

  lemma Pow2Table()
    ensures Pow2(1) == 2 && Pow2(2) == 4 && Pow2(4) == 16 && Pow2(8) == 0x100
    ensures Pow2(16) == 0x1_0000 && Pow2(56) == 0x100_0000_0000_0000
  {
    Pow2Product(1, 1, 2, 2);
    Pow2Product(2, 2, 4, 4);
    Pow2Product(4, 4, 16, 16);
    Pow2Product(8, 8, 0x100, 0x100);
    Pow2Product(16, 8, 0x1_0000, 0x100);
    Pow2Product(16, 16, 0x1_0000, 0x1_0000);
    Pow2Product(32, 24, 0x1_0000_0000, 0x100_0000);
  }

  // The steps for a word of n nibbles, all of whose values are below `range`.

  lemma PairStep(w: nat, half: nat, x: nat, n: nat, mask: nat, range: nat)
    requires x == Bitwise(AND, half, mask)
    requires half == High(w, 1)
    requires range == Pow2(4 * n) && w < range
    requires 3 * mask == range - 1
    ensures (w - x) % range == PairCounts(w, 2 * n)
  {
    assert half == w / 2 by { assert Pow2(1) == 2; }
    Mask5Value(n);
    FoldPairs(w, 2 * n);
    NoWrap(PairCounts(w, 2 * n), range);
  }

  lemma NibbleStep(w: nat, x: nat, n: nat, mask: nat, range: nat)
    requires range == Pow2(4 * n)
    requires 5 * mask == range - 1
    requires x == PairCounts(w, 2 * n)
    ensures (Bitwise(AND, x, mask) + Bitwise(AND, x / 4, mask)) % range == NibbleCounts(w, n)
  {
    var c: nat := NibbleCounts(w, n);
    assert c % range == c by {
      NibbleCountsBound(w, n);
      NoWrap(c, range);
    }
    assert mask == Mask3(n) by { Mask3Value(n); }
    FoldNibbles(w, n);
  }

  lemma ByteStep(w: nat, x: nat, y: nat, n: nat, mask: nat, range: nat)
    requires y == x + x / 16
    requires range == Pow2(8 * n)
    requires 17 * mask == range - 1
    requires x == NibbleCounts(w, 2 * n)
    ensures y < range && Bitwise(AND, y, mask) == ByteCounts(w, n) < range
  {
    MaskFValue(n);
    FoldBytes(w, n, x, mask);
    NibbleCountsBound(w, 2 * n);
    ByteCountsBound(w, n);
  }

  // The counts of all bytes of a word of n bytes.
  lemma CountsOfWord(w: nat, n: nat) returns (d: seq<nat>)
    requires w < Pow2(8 * n)
    ensures |d| == n && forall k :: 0 <= k < n ==> d[k] <= 8
    ensures ByteCounts(w, n) == FromBytes(d) && Count(w) == Sum(d)
  {
    var rest: nat;
    d, rest := CountsOfBytes(w, n);
    NothingAbove(w, 8 * n);
  }

  lemma SumBytes32(w: nat, x: nat, s: nat, t: nat)
    requires w < Pow2(32)
    requires x == ByteCounts(w, 4)
    requires s == x + x / 0x100 && t == s + s / 0x1_0000
    ensures s <= t < 0x1_0000_0000 && t % 0x100 == Count(w)
  {
    var n: nat := 4;
    var d := CountsOfWord(w, n);
    GatherByShifts(x, s, d);
  }

  // Neither of the two additions wraps around.
  lemma SumStep32(w: nat, x: nat, s: nat, y: nat, t: nat, z: nat)
    requires w < Pow2(32)
    requires x == ByteCounts(w, 4)
    requires s == x + x / 0x100 && y == s % 0x1_0000_0000
    requires t == y + y / 0x1_0000 && z == t % 0x1_0000_0000
    ensures z % 0x100 == Count(w)
  {
    assert y == s by {
      SumBytes32(w, x, s, s + s / 0x1_0000);
      NoWrap(s, 0x1_0000_0000);
    }
    SumBytes32(w, x, s, t);
    NoWrap(t, 0x1_0000_0000);
  }

  lemma AndLowByte(x: nat)
    ensures Bitwise(AND, x, 0xFF) == x % 0x100
  {
    Pow2Of8();
    AndMask(x, 8);
  }

  lemma SumStep64(w: nat, x: nat)
    requires w < Pow2(64)
    requires x == ByteCounts(w, 8)
    ensures x * 0x0101_0101_0101_0101 % 0x1_0000_0000_0000_0000 / 0x100_0000_0000_0000 == Count(w)
  {
    var n: nat := 8;
    var d := CountsOfWord(w, n);
    GatherByMultiply(x, d);
  }

  lemma NothingAbove(w: nat, n: nat)
    requires w < Pow2(n)
    ensures High(w, n) == 0
  {
    DivModUnique(w, Pow2(n), 0, w);
  }

  lemma Pairs32(w: Uint32, x: Word)
    requires x == And(Shr(w, 1), 0x5555_5555)
    ensures (w - x) % 0x1_0000_0000 == PairCounts(w, 16)
  {
    var n: nat := 8;
    assert Pow2(4 * n) == 0x1_0000_0000 by { WordRange(); }
    PairStep(w, Shr(w, 1), x, n, 0x5555_5555, 0x1_0000_0000);
  }

  lemma Nibbles32(w: Uint32, x: Uint32)
    requires x == PairCounts(w, 16)
    ensures (And(x, 0x3333_3333) + And(Shr(x, 2), 0x3333_3333)) % 0x1_0000_0000 == NibbleCounts(w, 8)
  {
    assert Shr(x, 2) == x / 4 by { Pow2Table(); ShrBy(x, 2, 4); }
    WordRange();
    NibbleStep(w, x, 8, 0x3333_3333, 0x1_0000_0000);
  }

  lemma Bytes32(w: Uint32, x: Uint32)
    requires x == NibbleCounts(w, 8)
    ensures And((x + Shr(x, 4)) % 0x1_0000_0000, 0x0F0F_0F0F) == ByteCounts(w, 4) < 0x1_0000_0000
  {
    var n: nat, y: nat := 4, x + Shr(x, 4);
    assert y == x + x / 16 by { Pow2Table(); ShrBy(x, 4, 16); }
    assert Pow2(8 * n) == 0x1_0000_0000 by { WordRange(); }
    ByteStep(w, x, y, n, 0x0F0F_0F0F, 0x1_0000_0000);
    NoWrap(y, 0x1_0000_0000);
  }

  lemma Pairs64(w: Word, x: Word)
    requires x == And(Shr(w, 1), 0x5555_5555_5555_5555)
    ensures (w - x) % 0x1_0000_0000_0000_0000 == PairCounts(w, 32)
  {
    var n: nat := 16;
    assert Pow2(4 * n) == 0x1_0000_0000_0000_0000 by { WordRange(); }
    PairStep(w, Shr(w, 1), x, n, 0x5555_5555_5555_5555, 0x1_0000_0000_0000_0000);
  }

  lemma Nibbles64(w: Word, x: Word)
    requires x == PairCounts(w, 32)
    ensures (And(x, 0x3333_3333_3333_3333) + And(Shr(x, 2), 0x3333_3333_3333_3333)) % 0x1_0000_0000_0000_0000 ==
            NibbleCounts(w, 16)
  {
    assert Shr(x, 2) == x / 4 by { Pow2Table(); ShrBy(x, 2, 4); }
    WordRange();
    NibbleStep(w, x, 16, 0x3333_3333_3333_3333, 0x1_0000_0000_0000_0000);
  }

  lemma Bytes64(w: Word, x: Word)
    requires x == NibbleCounts(w, 16)
    ensures And((x + Shr(x, 4)) % 0x1_0000_0000_0000_0000, 0x0F0F_0F0F_0F0F_0F0F) ==
            ByteCounts(w, 8) < 0x1_0000_0000_0000_0000
  {
    var n: nat, y: nat := 8, x + Shr(x, 4);
    assert y == x + x / 16 by { Pow2Table(); ShrBy(x, 4, 16); }
    assert Pow2(8 * n) == 0x1_0000_0000_0000_0000 by { WordRange(); }
    ByteStep(w, x, y, n, 0x0F0F_0F0F_0F0F_0F0F, 0x1_0000_0000_0000_0000);
    NoWrap(y, 0x1_0000_0000_0000_0000);
  }

  lemma Sum32(w: Uint32, x: Uint32, y: Uint32, z: Uint32)
    requires x == ByteCounts(w, 4)
    requires y == (x + Shr(x, 8)) % 0x1_0000_0000
    requires z == (y + Shr(y, 16)) % 0x1_0000_0000
    ensures And(z, 0xFF) == Count(w) < 0x100
  {
    AddShifted(x, 8, 0x100, x + Shr(x, 8));
    AddShifted(y, 16, 0x1_0000, y + Shr(y, 16));
    assert w < Pow2(32) by { Pow2Of32(); }
    SumStep32(w, x, x + Shr(x, 8), y, y + Shr(y, 16), z);
    AndLowByte(z);
  }

  lemma AddShifted(x: Word, n: nat, d: nat, s: nat)
    requires (n, d) == (8, 0x100) || (n, d) == (16, 0x1_0000)
    requires s == x + Shr(x, n)
    ensures s == x + x / d
  {
    Pow2Table();
    ShrBy(x, n, d);
  }

  lemma Sum64(w: Word, x: Word)
    requires x == ByteCounts(w, 8)
    ensures Shr(x * 0x0101_0101_0101_0101 % 0x1_0000_0000_0000_0000, 56) == Count(w)
  {
    WordRange(); Pow2Table();
    SumStep64(w, x);
    ShrBy(x * 0x0101_0101_0101_0101 % 0x1_0000_0000_0000_0000, 56, 0x100_0000_0000_0000);
  }

  // The first three steps of hweight32.
  method ByteSums32(w: Uint32) returns (res: Uint32)
    ensures res == ByteCounts(w, 4)
  {
    var high := And(Shr(w, 1), 0x5555_5555);
    Pairs32(w, high);
    res := (w - high) % 0x1_0000_0000;
    Nibbles32(w, res);
    res := (And(res, 0x3333_3333) + And(Shr(res, 2), 0x3333_3333)) % 0x1_0000_0000;
    Bytes32(w, res);
    res := And((res + Shr(res, 4)) % 0x1_0000_0000, 0x0F0F_0F0F);
  }

  // hweight32
  method Hweight32(w: Uint32) returns (res: Uint32)
    ensures res == Count(w)
  {
    res := ByteSums32(w);
    ghost var bytes := res;
    res := (res + Shr(res, 8)) % 0x1_0000_0000;
    Sum32(w, bytes, res, (res + Shr(res, 16)) % 0x1_0000_0000);
    res := And((res + Shr(res, 16)) % 0x1_0000_0000, 0x0000_00FF);
  }

  // The first three steps of hweight64.
  method ByteSums64(w: Word) returns (res: Word)
    ensures res == ByteCounts(w, 8)
  {
    var high := And(Shr(w, 1), 0x5555_5555_5555_5555);
    Pairs64(w, high);
    res := (w - high) % 0x1_0000_0000_0000_0000;
    Nibbles64(w, res);
    res := (And(res, 0x3333_3333_3333_3333) + And(Shr(res, 2), 0x3333_3333_3333_3333)) % 0x1_0000_0000_0000_0000;
    Bytes64(w, res);
    res := And((res + Shr(res, 4)) % 0x1_0000_0000_0000_0000, 0x0F0F_0F0F_0F0F_0F0F);
  }

  // hweight64
  method Hweight64(w: Word) returns (res: Word)
    ensures res == Count(w)
  {
    res := ByteSums64(w);
    Sum64(w, res);
    res := Shr(res * 0x0101_0101_0101_0101 % 0x1_0000_0000_0000_0000, 56);
  }

  // Counting a 64-bit word is counting its two halves.
  lemma CountHalves(w: Word)
    ensures Count(w) == Count(High(w, 32)) + Count(w % Pow2(32))
  {
    LowAndHigh(w, 32);
    CountJoin(w % Pow2(32), High(w, 32), 32);
  }

  // hweight_long; sizeof(unsigned long) is 8.
  method HweightLong(w: Word) returns (res: Word)
    ensures res == Count(w)
  {
    res := Hweight64(w);
  }

  // ---------------------------------------------------------------------------
  // The highest bit
  // ---------------------------------------------------------------------------

  function Shl32(x: Uint32, s: nat): Uint32 {
    Pow2Of32();
    Scale(x, s) % Pow2(32)
  }

  // A mask of the k top bits of n keeps what is above the others, and is 0 on the numbers below 2^(n - k).
  lemma TopMask(x: nat, n: nat, k: nat, mask: nat, bar: nat)
    requires x < Pow2(n) && k <= n
    requires bar == Pow2(n - k) && mask == Pow2(n) - bar
    ensures Bitwise(AND, x, mask) == 0 <==> x < bar
  {
    var m: nat := n - k;
    var low: nat, high: nat := x % Pow2(m), High(x, m);
    LowAndHigh(x, m);
    HighSmall(x, m, k);
    TopMaskAsJoin(m, k);
    TopMaskAnd(x, low, high, m, k, mask);
    JoinZero(low, high, m);
  }

  lemma TopMaskAnd(x: nat, low: nat, high: nat, m: nat, k: nat, mask: nat)
    requires low < Pow2(m) && high < Pow2(k)
    requires x == Join(low, high, m) && mask == Join(0, Pow2(k) - 1, m)
    ensures Bitwise(AND, x, mask) == Join(0, high, m)
  {
    BitwiseJoin(AND, low, high, 0, Pow2(k) - 1, m);
    BitwiseZero(AND, low);
    AndMask(high, k);
    NoWrap(high, Pow2(k));
  }

  lemma JoinZero(low: nat, high: nat, m: nat)
    requires low < Pow2(m)
    ensures Join(0, high, m) == 0 <==> high == 0
    ensures Join(low, high, m) < Pow2(m) <==> high == 0
  {
    if high > 0 {
      MulMono(1, high, Pow2(m));
    }
  }

  lemma TopMaskAsJoin(m: nat, k: nat)
    ensures Pow2(m + k) >= Pow2(m) && Pow2(m + k) - Pow2(m) == Join(0, Pow2(k) - 1, m)
  {
    Pow2Add(m, k);
    MulDistrib(Pow2(m), Pow2(k) - 1, 1);
  }

  lemma MoveUp(x: Uint32, k: nat, bar: nat, floor: nat)
    requires k <= 32 && bar == Pow2(32 - k) == Pow2(k) * floor
    requires 1 <= floor <= x < bar
    ensures Shl32(x, k) >= bar && BitLength(Shl32(x, k)) == BitLength(x) + k
  {
    BitLengthJoin(0, x, k);
    MulMono(floor, x, Pow2(k));
    KeptByShift(x, k, 32);
  }

  // Moving up loses nothing when the top k bits are 0.
  lemma KeptByShift(x: nat, k: nat, n: nat)
    requires k <= n && x < Pow2(n - k)
    ensures Scale(x, k) % Pow2(n) == Join(0, x, k)
  {
    ScaleIsJoin(x, k);
    JoinBoundAt(0, x, k, n - k, n);
    NoWrap(Scale(x, k), Pow2(n));
  }

  // One halving step: x moves up by k when its top k bits are 0.
  lemma FlsStep(x: Uint32, k: nat, mask: Uint32, bar: nat, floor: nat)
    requires k <= 32 && bar == Pow2(32 - k) == Pow2(k) * floor && mask == Pow2(32) - bar
    requires 1 <= floor <= x
    ensures And(x, mask) != 0 ==> x >= bar
    ensures And(x, mask) == 0 ==> Shl32(x, k) >= bar && BitLength(Shl32(x, k)) == BitLength(x) + k
  {
    Pow2Of32();
    TopMask(x, 32, k, mask, bar);
    if And(x, mask) == 0 {
      MoveUp(x, k, bar, floor);
    }
  }

  lemma FlsPowers()
    ensures Pow2(1) == 2 && Pow2(2) == 4 && Pow2(4) == 16 && Pow2(8) == 0x100 && Pow2(16) == 0x1_0000
    ensures Pow2(24) == 0x100_0000 && Pow2(28) == 0x1000_0000 && Pow2(30) == 0x4000_0000
    ensures Pow2(31) == 0x8000_0000 && Pow2(32) == 0x1_0000_0000
  {
    Pow2Table();
    Pow2Product(16, 8, 0x1_0000, 0x100);
    Pow2Product(24, 4, 0x100_0000, 0x10);
    Pow2Product(28, 2, 0x1000_0000, 4);
    Pow2Product(30, 1, 0x4000_0000, 2);
    Pow2Of32();
  }

  // The five steps, each with what it may take for granted about x.
  lemma FlsSteps(x: Uint32, k: nat, mask: Uint32, bar: nat, floor: nat)
    requires (k, mask, bar, floor) == (16, 0xffff_0000, 0x1_0000, 1) ||
             (k, mask, bar, floor) == (8, 0xff00_0000, 0x100_0000, 0x1_0000) ||
             (k, mask, bar, floor) == (4, 0xf000_0000, 0x1000_0000, 0x100_0000) ||
             (k, mask, bar, floor) == (2, 0xc000_0000, 0x4000_0000, 0x1000_0000) ||
             (k, mask, bar, floor) == (1, 0x8000_0000, 0x8000_0000, 0x4000_0000)
    requires floor <= x
    ensures And(x, mask) != 0 ==> x >= bar
    ensures And(x, mask) == 0 ==> Shl32(x, k) >= bar && BitLength(Shl32(x, k)) == BitLength(x) + k
  {
    FlsPowers();
    FlsStep(x, k, mask, bar, floor);
  }

  lemma TopBitSet(x: Uint32)
    requires x >= 0x8000_0000
    ensures BitLength(x) == 32
  {
    FlsPowers();
    BitLengthIff(x, 32);
    BitLengthIff(x, 31);
  }

  // fls: 0 for 0, otherwise the position of the highest bit counted from 1.
  method Fls(x0: Uint32) returns (r: int)
    ensures r == BitLength(x0)
  {
    var x := x0;
    r := 32;
    if x == 0 {
      return 0;
    }
    FlsSteps(x, 16, 0xffff_0000, 0x1_0000, 1);
    if And(x, 0xffff_0000) == 0 {
      x := Shl32(x, 16);
      r := r - 16;
    }
    assert x >= 0x1_0000 && BitLength(x) == BitLength(x0) + 32 - r;
    FlsSteps(x, 8, 0xff00_0000, 0x100_0000, 0x1_0000);
    if And(x, 0xff00_0000) == 0 {
      x := Shl32(x, 8);
      r := r - 8;
    }
    assert x >= 0x100_0000 && BitLength(x) == BitLength(x0) + 32 - r;
    FlsSteps(x, 4, 0xf000_0000, 0x1000_0000, 0x100_0000);
    if And(x, 0xf000_0000) == 0 {
      x := Shl32(x, 4);
      r := r - 4;
    }
    assert x >= 0x1000_0000 && BitLength(x) == BitLength(x0) + 32 - r;
    FlsSteps(x, 2, 0xc000_0000, 0x4000_0000, 0x1000_0000);
    if And(x, 0xc000_0000) == 0 {
      x := Shl32(x, 2);
      r := r - 2;
    }
    assert x >= 0x4000_0000 && BitLength(x) == BitLength(x0) + 32 - r;
    FlsSteps(x, 1, 0x8000_0000, 0x8000_0000, 0x4000_0000);
    if And(x, 0x8000_0000) == 0 {
      x := Shl32(x, 1);
      r := r - 1;
    }
    assert x >= 0x8000_0000 && BitLength(x) == BitLength(x0) + 32 - r;
    TopBitSet(x);
  }
}
