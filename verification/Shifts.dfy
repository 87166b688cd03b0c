/** The multi-word shifts of bitmap.c, in place or not, and their algebra. */
module Shifts {
  import opened Bits
  import opened Words
  import opened Bitmap

  // Moving all bits up: the low `shift` positions become 0, what passes position n is lost.
  function ShiftedLeft(x: nat, shift: nat, n: nat): nat {
    Scale(x, shift) % Pow2(n)
  }

  // Moving the low n bits down: the low `shift` bits are lost.
  function ShiftedRight(x: nat, shift: nat, n: nat): nat {
    High(x % Pow2(n), shift)
  }

  lemma BitShiftedLeft(x: nat, shift: nat, n: nat, j: nat)
    ensures Bit(ShiftedLeft(x, shift, n), j) == (shift <= j < n && Bit(x, j - shift))
  {
    BitMod(Scale(x, shift), n, j);
    BitMul(x, shift, j);
  }

  lemma BitShiftedRight(x: nat, shift: nat, n: nat, j: nat)
    ensures Bit(ShiftedRight(x, shift, n), j) == (shift + j < n && Bit(x, shift + j))
  {
    BitDiv(x % Pow2(n), shift, j);
    BitMod(x, n, shift + j);
  }

  // ---------------------------------------------------------------------------
  // One word of a shifted number
  // ---------------------------------------------------------------------------

  lemma LeftWord(x: nat, off: nat, rem: nat, k: nat, lower: Word, upper: Word)
    requires rem < 64
    requires upper == Digit(x, k)
    requires lower == if rem != 0 && k > 0 then Digit(x, k - 1) else 0
    ensures Digit(Scale(x, 64 * off + rem), k + off) == Or(Shr(lower, 64 - rem), Shl(upper, rem))
  {
    var y, z := Digit(Scale(x, 64 * off + rem), k + off), Or(Shr(lower, 64 - rem), Shl(upper, rem));
    forall b | 0 <= b < 64
      ensures Bit(y, b) == Bit(z, b)
    {
      BitDigit(Scale(x, 64 * off + rem), k + off, b);
      BitMul(x, 64 * off + rem, 64 * (k + off) + b);
      BitBitwise(OR, Shr(lower, 64 - rem), Shl(upper, rem), b);
      LeftBit(x, rem, k, lower, upper, b);
    }
    SameBits(y, z);
  }

  // Bit b of the combined word comes from `rem` bits below, in the same word of x or in the one before.
  lemma LeftBit(x: nat, rem: nat, k: nat, lower: Word, upper: Word, b: nat)
    requires rem < 64 && b < 64
    requires upper == Digit(x, k)
    requires lower == if rem != 0 && k > 0 then Digit(x, k - 1) else 0
    ensures Bit(Shr(lower, 64 - rem), b) || Bit(Shl(upper, rem), b) <==>
            64 * k + b >= rem && Bit(x, 64 * k + b - rem)
  {
    BitShr(lower, 64 - rem, b);
    BitShl(upper, rem, b);
    if b >= rem {
      BitDigit(x, k, b - rem);
      BitWordHigh(lower, 64 - rem + b);
    } else if k > 0 {
      BitDigit(x, k - 1, 64 - rem + b);
    } else {
      BitZero(64 - rem + b);
    }
  }

  lemma RightWord(x: nat, off: nat, rem: nat, k: nat, lower: Word, upper: Word)
    requires rem < 64
    requires lower == Digit(x, off + k)
    requires upper == if rem != 0 then Digit(x, off + k + 1) else 0
    ensures Digit(High(x, 64 * off + rem), k) == Or(Shl(upper, 64 - rem), Shr(lower, rem))
  {
    var y, z := Digit(High(x, 64 * off + rem), k), Or(Shl(upper, 64 - rem), Shr(lower, rem));
    forall b | 0 <= b < 64
      ensures Bit(y, b) == Bit(z, b)
    {
      BitDigit(High(x, 64 * off + rem), k, b);
      BitDiv(x, 64 * off + rem, 64 * k + b);
      BitBitwise(OR, Shl(upper, 64 - rem), Shr(lower, rem), b);
      RightBit(x, off, rem, k, lower, upper, b);
    }
    SameBits(y, z);
  }

  // Bit b of the combined word is bit rem + b of the two words of x, one above the other.
  lemma RightBit(x: nat, off: nat, rem: nat, k: nat, lower: Word, upper: Word, b: nat)
    requires rem < 64 && b < 64
    requires lower == Digit(x, off + k)
    requires upper == if rem != 0 then Digit(x, off + k + 1) else 0
    ensures Bit(Shl(upper, 64 - rem), b) || Bit(Shr(lower, rem), b) <==> Bit(x, 64 * (off + k) + rem + b)
  {
    BitShl(upper, 64 - rem, b);
    BitShr(lower, rem, b);
    BitDigit(x, off + k, rem + b);
    if rem + b >= 64 {
      BitDigit(x, off + k + 1, rem + b - 64);
    }
  }

  lemma VacatedLeft(x: nat, off: nat, rem: nat, bits: nat, w: nat)
    requires w < off
    ensures Digit(ShiftedLeft(x, 64 * off + rem, bits), w) == 0
  {
    forall b | 0 <= b < 64
      ensures Bit(Digit(ShiftedLeft(x, 64 * off + rem, bits), w), b) == Bit(0, b)
    {
      BitDigit(ShiftedLeft(x, 64 * off + rem, bits), w, b);
      BitShiftedLeft(x, 64 * off + rem, bits, 64 * w + b);
      BitZero(b);
    }
    SameBits(Digit(ShiftedLeft(x, 64 * off + rem, bits), w), 0);
  }

  lemma VacatedRight(x: nat, off: nat, rem: nat, bits: nat, w: nat)
    requires off + w >= BitsToLongs(bits)
    ensures Digit(ShiftedRight(x, 64 * off + rem, bits), w) == 0
  {
    forall b | 0 <= b < 64
      ensures Bit(Digit(ShiftedRight(x, 64 * off + rem, bits), w), b) == Bit(0, b)
    {
      BitDigit(ShiftedRight(x, 64 * off + rem, bits), w, b);
      BitShiftedRight(x, 64 * off + rem, bits, 64 * w + b);
      BitZero(b);
    }
    SameBits(Digit(ShiftedRight(x, 64 * off + rem, bits), w), 0);
  }

  lemma ShiftedBounds(x: nat, shift: nat, bits: nat)
    ensures ShiftedLeft(x, shift, bits) < Pow2(bits) && ShiftedRight(x, shift, bits) < Pow2(bits)
  {
    HighBound(x % Pow2(bits), shift);
  }

  // The bits of x beyond n never reach the result of a left shift.
  lemma ShiftedLeftOfLow(x: nat, shift: nat, n: nat)
    ensures ShiftedLeft(x % Pow2(n), shift, n) == ShiftedLeft(x, shift, n)
  {
    forall j | 0 <= j < n
      ensures Bit(ShiftedLeft(x % Pow2(n), shift, n), j) == Bit(ShiftedLeft(x, shift, n), j)
    {
      BitShiftedLeft(x % Pow2(n), shift, n, j);
      BitShiftedLeft(x, shift, n, j);
      if j >= shift {
        BitMod(x, n, j - shift);
      }
    }
    BitsDetermine(ShiftedLeft(x % Pow2(n), shift, n), ShiftedLeft(x, shift, n), n);
  }

  lemma DigitBeyond(x: nat, k: nat)
    requires x < Pow2(64 * k)
    ensures Digit(x, k) == 0
  {
    DivModUnique(x, Pow2(64 * k), 0, x);
    LowOfZero(64);
  }

  // A masked word of the source is a word of the low bits of the source.
  lemma SourceWord(s: seq<Word>, bits: nat, k: nat)
    requires |s| == BitsToLongs(bits) && k < |s|
    ensures TopMasked(s[k], bits, k) == Digit(Value(s) % Pow2(bits), k)
  {
    LowWord(Value(s), bits, k);
    DigitOfValue(s, k);
  }

  lemma NoSourceWord(s: seq<Word>, bits: nat)
    requires |s| == BitsToLongs(bits)
    ensures Digit(Value(s) % Pow2(bits), |s|) == 0
  {
    RoomFor(bits);
    DigitBeyond(Value(s) % Pow2(bits), |s|);
  }

  // The word that a right shift writes at k.
  lemma RightTarget(s: seq<Word>, bits: nat, off: nat, rem: nat, k: nat, lower: Word, upper: Word)
    requires |s| == BitsToLongs(bits) && off + k < |s| && rem < 64
    requires lower == TopMasked(s[off + k], bits, off + k)
    requires upper == if rem == 0 || off + k + 1 >= |s| then 0 else TopMasked(s[off + k + 1], bits, off + k + 1)
    ensures TopMasked(Or(Shl(upper, 64 - rem), Shr(lower, rem)), bits, k) ==
            Digit(ShiftedRight(Value(s), 64 * off + rem, bits), k)
  {
    var x := Value(s) % Pow2(bits);
    SourceWord(s, bits, off + k);
    if off + k + 1 < |s| {
      SourceWord(s, bits, off + k + 1);
    } else {
      NoSourceWord(s, bits);
    }
    RightWord(x, off, rem, k, lower, upper);
    var y := High(x, 64 * off + rem);
    ShiftedBounds(Value(s), 64 * off + rem, bits);
    LowWord(y, bits, k);
    NoWrap(y, Pow2(bits));
  }

  // The word that a left shift writes at k + off.
  lemma LeftTarget(s: seq<Word>, bits: nat, off: nat, rem: nat, k: nat, lower: Word, upper: Word)
    requires |s| == BitsToLongs(bits) && k + off < |s| && rem < 64
    requires lower == if rem != 0 && k > 0 then s[k - 1] else 0
    requires upper == TopMasked(s[k], bits, k)
    ensures TopMasked(Or(Shr(lower, 64 - rem), Shl(upper, rem)), bits, k + off) ==
            Digit(ShiftedLeft(Value(s), 64 * off + rem, bits), k + off)
  {
    var x := Value(s) % Pow2(bits);
    SourceWord(s, bits, k);
    if k > 0 {
      SourceWord(s, bits, k - 1);
    }
    LeftWord(x, off, rem, k, lower, upper);
    ShiftedLeftOfLow(Value(s), 64 * off + rem, bits);
    LowWord(Scale(x, 64 * off + rem), bits, k + off);
  }

  // ---------------------------------------------------------------------------
  // bitmap.c
  // ---------------------------------------------------------------------------

  // The words of the source that one round of a right shift combines; the top one is masked.
  method ReadRight(src: array<Word>, bits: nat, off: nat, rem: nat, k: nat) returns (lower: Word, upper: Word)
    requires BitsToLongs(bits) <= src.Length && off + k < BitsToLongs(bits)
    ensures lower == TopMasked(src[off + k], bits, off + k)
    ensures upper == if rem == 0 || off + k + 1 >= BitsToLongs(bits) then 0
                     else TopMasked(src[off + k + 1], bits, off + k + 1)
  {
    var lim: nat, left: nat := BitsToLongs(bits), bits % 64;
    var mask := LowMask(left);
    if rem == 0 || off + k + 1 >= lim {
      upper := 0;
    } else {
      upper := src[off + k + 1];
      if off + k + 1 == lim - 1 && left != 0 {
        upper := And(upper, mask);
      }
    }
    lower := src[off + k];
    if left != 0 && off + k == lim - 1 {
      lower := And(lower, mask);
    }
  }

  // The words of the source that one round of a left shift combines.
  method ReadLeft(src: array<Word>, bits: nat, rem: nat, k: nat) returns (lower: Word, upper: Word)
    requires BitsToLongs(bits) <= src.Length && k < BitsToLongs(bits)
    ensures lower == if rem != 0 && k > 0 then src[k - 1] else 0
    ensures upper == TopMasked(src[k], bits, k)
  {
    var lim: nat, left: nat := BitsToLongs(bits), bits % 64;
    if rem != 0 && k > 0 {
      lower := src[k - 1];
    } else {
      lower := 0;
    }
    upper := src[k];
    if left != 0 && k == lim - 1 {
      upper := And(upper, LowMask(left));
    }
  }

  // A word written, then masked in place if it is the top one.
  method WriteMasked(dst: array<Word>, bits: nat, k: nat, w: Word)
    requires k < BitsToLongs(bits) <= dst.Length
    modifies dst
    ensures dst[k] == TopMasked(w, bits, k)
    ensures forall i :: 0 <= i < dst.Length && i != k ==> dst[i] == old(dst[i])
  {
    var lim: nat, left: nat := BitsToLongs(bits), bits % 64;
    dst[k] := w;
    if left != 0 && k == lim - 1 {
      dst[k] := And(dst[k], LowMask(left));
    }
  }

  ghost predicate Vacated(t: seq<Word>, t': seq<Word>, from: nat, count: nat)
    requires |t| == |t'| && from + count <= |t|
  {
    forall j :: 0 <= j < |t| ==> t'[j] == if from <= j < from + count then 0 else t[j]
  }

  // `if (off)`, clearing the words that no round has written.
  method Vacate(dst: array<Word>, from: nat, off: nat, ghost lim: nat)
    requires from + off <= lim <= dst.Length
    modifies dst
    ensures Vacated(old(dst[..lim]), dst[..lim], from, off)
    ensures dst[lim..] == old(dst[lim..])
  {
    if off != 0 {
      Memset(dst, from, off, 0);
    }
  }

  // What the rounds of a right shift below k have done: k words of dst are final, and src is intact above.
  ghost predicate RightSoFar(dst: seq<Word>, src: seq<Word>, s: seq<Word>, bits: nat, off: nat, rem: nat, k: nat)
    requires |dst| == |src| == |s| && off + k <= |s|
  {
    (forall j :: 0 <= j < k ==> dst[j] == Digit(ShiftedRight(Value(s), 64 * off + rem, bits), j)) &&
    (forall j :: off + k <= j < |s| ==> src[j] == s[j])
  }

  // One round: s is what src held at first.
  method RightRound(dst: array<Word>, src: array<Word>, bits: nat, off: nat, rem: nat, k: nat, ghost s: seq<Word>)
    requires BitsToLongs(bits) <= dst.Length && BitsToLongs(bits) <= src.Length
    requires |s| == BitsToLongs(bits) && off + k < |s| && rem < 64
    requires RightSoFar(dst[..|s|], src[..|s|], s, bits, off, rem, k)
    modifies dst
    ensures RightSoFar(dst[..|s|], src[..|s|], s, bits, off, rem, k + 1)
    ensures dst[|s|..] == old(dst[|s|..])
  {
    var lower, upper := ReadRight(src, bits, off, rem, k);
    RightTarget(s, bits, off, rem, k, lower, upper);
    WriteMasked(dst, bits, k, Or(Shl(upper, 64 - rem), Shr(lower, rem)));
  }

  // With the vacated words cleared, the shift is complete.
  lemma RightDone(s: seq<Word>, u: seq<Word>, t: seq<Word>, t': seq<Word>, bits: nat, off: nat, rem: nat)
    requires |s| == |u| == |t| == |t'| == BitsToLongs(bits) && off <= |s|
    requires RightSoFar(t, u, s, bits, off, rem, |s| - off)
    requires Vacated(t, t', |s| - off, off)
    ensures Value(t') == ShiftedRight(Value(s), 64 * off + rem, bits)
  {
    var target := ShiftedRight(Value(s), 64 * off + rem, bits);
    forall j | |s| - off <= j < |s|
      ensures Digit(target, j) == 0
    {
      VacatedRight(Value(s), off, rem, bits, j);
    }
    ShiftedBounds(Value(s), 64 * off + rem, bits);
    RoomFor(bits);
    ValueOfDigits(t', target);
  }

  // __bitmap_shift_right; ascending, so that dst may be src.
  method ShiftRight(dst: array<Word>, src: array<Word>, shift: nat, bits: nat)
    requires BitsToLongs(bits) <= dst.Length && BitsToLongs(bits) <= src.Length
    requires shift / 64 <= BitsToLongs(bits)
    modifies dst
    ensures Number(dst, bits) == ShiftedRight(old(Number(src, bits)), shift, bits)
    ensures dst[BitsToLongs(bits)..] == old(dst[BitsToLongs(bits)..])
  {
    var k: nat, lim: nat, off: nat, rem: nat := 0, BitsToLongs(bits), shift / 64, shift % 64;
    ghost var s := src[..lim];
    while off + k < lim
      invariant off + k <= lim
      invariant RightSoFar(dst[..lim], src[..lim], s, bits, off, rem, k)
      invariant dst[lim..] == old(dst[lim..])
    {
      RightRound(dst, src, bits, off, rem, k, s);
      k := k + 1;
    }
    ghost var u, t := src[..lim], dst[..lim];
    Vacate(dst, lim - off, off, lim);
    RightDone(s, u, t, dst[..lim], bits, off, rem);
  }

  // What the rounds of a left shift above k have done: the words of dst above k + off are final, and src
  // is intact up to k.
  ghost predicate LeftSoFar(dst: seq<Word>, src: seq<Word>, s: seq<Word>, bits: nat, off: nat, rem: nat, k: int)
    requires |dst| == |src| == |s| && -1 <= k < |s| - off
  {
    (forall j :: k + off < j < |s| ==> dst[j] == Digit(ShiftedLeft(Value(s), 64 * off + rem, bits), j)) &&
    (forall j :: 0 <= j <= k ==> src[j] == s[j])
  }

  // One round: s is what src held at first.
  method LeftRound(dst: array<Word>, src: array<Word>, bits: nat, off: nat, rem: nat, k: nat, ghost s: seq<Word>)
    requires BitsToLongs(bits) <= dst.Length && BitsToLongs(bits) <= src.Length
    requires |s| == BitsToLongs(bits) && k + off < |s| && rem < 64
    requires LeftSoFar(dst[..|s|], src[..|s|], s, bits, off, rem, k)
    modifies dst
    ensures LeftSoFar(dst[..|s|], src[..|s|], s, bits, off, rem, k - 1)
    ensures dst[|s|..] == old(dst[|s|..])
  {
    var lower, upper := ReadLeft(src, bits, rem, k);
    LeftTarget(s, bits, off, rem, k, lower, upper);
    WriteMasked(dst, bits, k + off, Or(Shr(lower, 64 - rem), Shl(upper, rem)));
  }

  // With the vacated words cleared, the shift is complete.
  lemma LeftDone(s: seq<Word>, u: seq<Word>, t: seq<Word>, t': seq<Word>, bits: nat, off: nat, rem: nat)
    requires |s| == |u| == |t| == |t'| == BitsToLongs(bits) && off <= |s|
    requires LeftSoFar(t, u, s, bits, off, rem, -1)
    requires Vacated(t, t', 0, off)
    ensures Value(t') == ShiftedLeft(Value(s), 64 * off + rem, bits)
  {
    var target := ShiftedLeft(Value(s), 64 * off + rem, bits);
    forall j | 0 <= j < off
      ensures Digit(target, j) == 0
    {
      VacatedLeft(Value(s), off, rem, bits, j);
    }
    ShiftedBounds(Value(s), 64 * off + rem, bits);
    RoomFor(bits);
    ValueOfDigits(t', target);
  }

  // __bitmap_shift_left; descending, so that dst may be src.
  method ShiftLeft(dst: array<Word>, src: array<Word>, shift: nat, bits: nat)
    requires BitsToLongs(bits) <= dst.Length && BitsToLongs(bits) <= src.Length
    requires shift / 64 <= BitsToLongs(bits)
    modifies dst
    ensures Number(dst, bits) == ShiftedLeft(old(Number(src, bits)), shift, bits)
    ensures dst[BitsToLongs(bits)..] == old(dst[BitsToLongs(bits)..])
  {
    var lim: nat, off: nat, rem: nat := BitsToLongs(bits), shift / 64, shift % 64;
    ghost var s := src[..lim];
    var k: int := lim - off - 1;
    while k >= 0
      invariant -1 <= k < lim - off
      invariant LeftSoFar(dst[..lim], src[..lim], s, bits, off, rem, k)
      invariant dst[lim..] == old(dst[lim..])
    {
      LeftRound(dst, src, bits, off, rem, k, s);
      k := k - 1;
    }
    ghost var u, t := src[..lim], dst[..lim];
    Vacate(dst, 0, off, lim);
    LeftDone(s, u, t, dst[..lim], bits, off, rem);
  }

  // ---------------------------------------------------------------------------
  // Algebra of shifts
  // ---------------------------------------------------------------------------

  lemma MembersShiftedLeft(x: nat, shift: nat, n: nat)
    ensures forall j :: j in Members(ShiftedLeft(x, shift, n), n) <==> shift <= j < n && j - shift in Members(x, n)
  {
    forall j: nat | j < n
      ensures Bit(ShiftedLeft(x, shift, n), j) <==> shift <= j && j - shift in Members(x, n)
    {
      BitShiftedLeft(x, shift, n, j);
    }
  }

  lemma MembersShiftedRight(x: nat, shift: nat, n: nat)
    ensures forall j :: j in Members(ShiftedRight(x, shift, n), n) <==> 0 <= j < n && shift + j in Members(x, n)
  {
    forall j: nat | j < n
      ensures Bit(ShiftedRight(x, shift, n), j) <==> shift + j in Members(x, n)
    {
      BitShiftedRight(x, shift, n, j);
    }
  }

  lemma ShiftLeftTwice(x: nat, a: nat, b: nat, n: nat)
    ensures ShiftedLeft(ShiftedLeft(x, a, n), b, n) == ShiftedLeft(x, a + b, n)
  {
    var y, z := ShiftedLeft(ShiftedLeft(x, a, n), b, n), ShiftedLeft(x, a + b, n);
    forall j | 0 <= j < n
      ensures Bit(y, j) == Bit(z, j)
    {
      BitShiftedLeft(ShiftedLeft(x, a, n), b, n, j);
      BitShiftedLeft(x, a + b, n, j);
      if j >= b {
        BitShiftedLeft(x, a, n, j - b);
      }
    }
    BitsDetermine(y, z, n);
  }

  lemma ShiftRightTwice(x: nat, a: nat, b: nat, n: nat)
    ensures ShiftedRight(ShiftedRight(x, a, n), b, n) == ShiftedRight(x, a + b, n)
  {
    var y, z := ShiftedRight(ShiftedRight(x, a, n), b, n), ShiftedRight(x, a + b, n);
    ShiftedBounds(ShiftedRight(x, a, n), b, n);
    ShiftedBounds(x, a + b, n);
    forall j | 0 <= j < n
      ensures Bit(y, j) == Bit(z, j)
    {
      BitShiftedRight(ShiftedRight(x, a, n), b, n, j);
      BitShiftedRight(x, a, n, b + j);
      BitShiftedRight(x, a + b, n, j);
    }
    BitsDetermine(y, z, n);
  }

  // Shifting left and back keeps exactly the low n - shift bits.
  lemma RightAfterLeft(x: nat, shift: nat, n: nat)
    ensures ShiftedRight(ShiftedLeft(x, shift, n), shift, n) == if shift <= n then x % Pow2(n - shift) else 0
    ensures shift <= n ==> Count(ShiftedRight(ShiftedLeft(x, shift, n), shift, n)) == |Members(x, n - shift)|
  {
    var y := ShiftedRight(ShiftedLeft(x, shift, n), shift, n);
    var keep := if shift <= n then n - shift else 0;
    ShiftedBounds(ShiftedLeft(x, shift, n), shift, n);
    Pow2Mono(keep, n);
    forall j | 0 <= j < n
      ensures Bit(y, j) == Bit(x % Pow2(keep), j)
    {
      BitShiftedRight(ShiftedLeft(x, shift, n), shift, n, j);
      BitShiftedLeft(x, shift, n, shift + j);
      BitMod(x, keep, j);
    }
    BitsDetermine(y, x % Pow2(keep), n);
    CountMembers(x, keep);
  }

  // Shifting right and back clears exactly the low `shift` bits.
  lemma LeftAfterRight(x: nat, shift: nat, n: nat)
    ensures forall j :: j in Members(ShiftedLeft(ShiftedRight(x, shift, n), shift, n), n) <==>
                        j >= shift && j in Members(x, n)
  {
    var y := ShiftedLeft(ShiftedRight(x, shift, n), shift, n);
    forall j: nat | j < n
      ensures Bit(y, j) <==> j >= shift && Bit(x, j)
    {
      BitShiftedLeft(ShiftedRight(x, shift, n), shift, n, j);
      if j >= shift {
        BitShiftedRight(x, shift, n, j - shift);
      }
    }
  }
}
