/** The inline operations of bitmap.h: one-word fast paths, or the loops of bitmap.c. */
module Inlines {
  import opened Bits
  import opened Words
  import Weights
  import opened Bitmap
  import opened Shifts

  // A bitmap that its array can hold; there is always a first word.
  ghost predicate Fits(a: array<Word>, nbits: nat) {
    0 < nbits && BitsToLongs(nbits) <= a.Length
  }

  lemma OneWord(a: array<Word>, nbits: nat)
    requires 0 < nbits <= 64 && BitsToLongs(nbits) <= a.Length
    ensures BitsToLongs(nbits) == 1 && Number(a, nbits) == a[0]
  {
    assert a[..1] == [a[0]];
    assert Value([a[0]]) == a[0];
  }

  // On one word, masking with BITMAP_LAST_WORD_MASK keeps the low nbits.
  lemma LastWordLow(w: Word, nbits: nat)
    requires 0 < nbits <= 64
    ensures And(w, LastWordMask(nbits)) == w % Pow2(nbits)
  {
    if nbits == 64 {
      FullMask(w, nbits);
    } else {
      PartialMask(w, nbits);
    }
  }

  lemma PartialMask(w: Word, nbits: nat)
    requires 0 < nbits < 64
    ensures And(w, LastWordMask(nbits)) == w % Pow2(nbits)
  {
    assert nbits % 64 == nbits;
    AndLowMask(w, nbits);
  }

  lemma FullMask(w: Word, nbits: nat)
    requires nbits == 64
    ensures And(w, LastWordMask(nbits)) == w % Pow2(nbits)
  {
    WordRange();
    AndMask(w, nbits);
  }

  // bitmap_zero
  method BitmapZero(dst: array<Word>, nbits: nat)
    requires Fits(dst, nbits)
    modifies dst
    ensures Number(dst, nbits) == 0
    ensures dst[BitsToLongs(nbits)..] == old(dst[BitsToLongs(nbits)..])
  {
    if nbits <= 64 {
      dst[0] := 0;
      OneWord(dst, nbits);
    } else {
      Memset(dst, 0, BitsToLongs(nbits), 0);
      ValueZeros(dst[..BitsToLongs(nbits)]);
    }
  }

  lemma BitLastWordMask(nbits: nat, b: nat)
    requires b < 64
    ensures Bit(LastWordMask(nbits), b) == (nbits % 64 == 0 || b < nbits % 64)
  {
    if nbits % 64 == 0 {
      WordRange();
      BitOnes(64, b);
    } else {
      ShlOne(nbits % 64);
      BitOnes(nbits % 64, b);
    }
  }

  lemma OnesWord(nbits: nat, k: nat)
    requires k < BitsToLongs(nbits)
    ensures Digit(Pow2(nbits) - 1, k) == if k == BitsToLongs(nbits) - 1 then LastWordMask(nbits) else ULONG_MAX
  {
    var x: Word := Digit(Pow2(nbits) - 1, k);
    var y: Word := LastWordMask(if k == BitsToLongs(nbits) - 1 then nbits else 0);
    forall b | 0 <= b < 64
      ensures Bit(x, b) == Bit(y, b)
    {
      BitDigit(Pow2(nbits) - 1, k, b);
      BitOnes(nbits, 64 * k + b);
      TopIndex(nbits, k, b);
      BitLastWordMask(nbits, b);
      BitLastWordMask(0, b);
    }
    SameBits(x, y);
  }

  // bitmap_fill
  method BitmapFill(dst: array<Word>, nbits: nat)
    requires Fits(dst, nbits)
    modifies dst
    ensures Number(dst, nbits) == Pow2(nbits) - 1
    ensures dst[BitsToLongs(nbits)..] == old(dst[BitsToLongs(nbits)..])
  {
    var nlongs := BitsToLongs(nbits);
    if nlongs > 1 {
      Memset(dst, 0, nlongs - 1, ULONG_MAX);
    }
    dst[nlongs - 1] := LastWordMask(nbits);
    forall k | 0 <= k < nlongs
      ensures dst[k] == Digit(Pow2(nbits) - 1, k)
    {
      OnesWord(nbits, k);
    }
    RoomFor(nbits);
    ValueOfDigits(dst[..nlongs], Pow2(nbits) - 1);
  }

  // bitmap_copy
  method BitmapCopy(dst: array<Word>, src: array<Word>, nbits: nat)
    requires Fits(dst, nbits) && Fits(src, nbits)
    modifies dst
    ensures Number(dst, nbits) == old(Number(src, nbits))
    ensures dst[BitsToLongs(nbits)..] == old(dst[BitsToLongs(nbits)..])
  {
    if nbits <= 64 {
      OneWord(src, nbits);
      dst[0] := src[0];
      OneWord(dst, nbits);
    } else {
      ghost var s := src[..BitsToLongs(nbits)];
      forall i | 0 <= i < BitsToLongs(nbits) {
        dst[i] := src[i];
      }
      assert dst[..BitsToLongs(nbits)] == s;
    }
  }

  // bitmap_and
  method BitmapAnd(dst: array<Word>, src1: array<Word>, src2: array<Word>, nbits: nat)
    requires Fits(dst, nbits) && Fits(src1, nbits) && Fits(src2, nbits)
    modifies dst
    ensures Number(dst, nbits) == Bitwise(AND, old(Number(src1, nbits)), old(Number(src2, nbits)))
    ensures dst[BitsToLongs(nbits)..] == old(dst[BitsToLongs(nbits)..])
  {
    if nbits <= 64 {
      OneWord(src1, nbits); OneWord(src2, nbits);
      dst[0] := And(src1[0], src2[0]);
      OneWord(dst, nbits);
    } else {
      AndWords(dst, src1, src2, nbits);
    }
  }

  // bitmap_or
  method BitmapOr(dst: array<Word>, src1: array<Word>, src2: array<Word>, nbits: nat)
    requires Fits(dst, nbits) && Fits(src1, nbits) && Fits(src2, nbits)
    modifies dst
    ensures Number(dst, nbits) == Bitwise(OR, old(Number(src1, nbits)), old(Number(src2, nbits)))
    ensures dst[BitsToLongs(nbits)..] == old(dst[BitsToLongs(nbits)..])
  {
    if nbits <= 64 {
      OneWord(src1, nbits); OneWord(src2, nbits);
      dst[0] := Or(src1[0], src2[0]);
      OneWord(dst, nbits);
    } else {
      OrWords(dst, src1, src2, nbits);
    }
  }

  // bitmap_xor
  method BitmapXor(dst: array<Word>, src1: array<Word>, src2: array<Word>, nbits: nat)
    requires Fits(dst, nbits) && Fits(src1, nbits) && Fits(src2, nbits)
    modifies dst
    ensures Number(dst, nbits) == Bitwise(XOR, old(Number(src1, nbits)), old(Number(src2, nbits)))
    ensures dst[BitsToLongs(nbits)..] == old(dst[BitsToLongs(nbits)..])
  {
    if nbits <= 64 {
      OneWord(src1, nbits); OneWord(src2, nbits);
      dst[0] := Xor(src1[0], src2[0]);
      OneWord(dst, nbits);
    } else {
      XorWords(dst, src1, src2, nbits);
    }
  }

  // bitmap_andnot
  method BitmapAndNot(dst: array<Word>, src1: array<Word>, src2: array<Word>, nbits: nat)
    requires Fits(dst, nbits) && Fits(src1, nbits) && Fits(src2, nbits)
    modifies dst
    ensures Number(dst, nbits) == Bitwise(ANDNOT, old(Number(src1, nbits)), old(Number(src2, nbits)))
    ensures dst[BitsToLongs(nbits)..] == old(dst[BitsToLongs(nbits)..])
  {
    if nbits <= 64 {
      OneWord(src1, nbits); OneWord(src2, nbits);
      AndNot(src1[0], src2[0]);
      dst[0] := And(src1[0], Not(src2[0]));
      OneWord(dst, nbits);
    } else {
      AndNotWords(dst, src1, src2, nbits);
    }
  }

  // bitmap_complement
  method BitmapComplement(dst: array<Word>, src: array<Word>, nbits: nat)
    requires Fits(dst, nbits) && Fits(src, nbits)
    modifies dst
    ensures Number(dst, nbits) == Complemented(old(Number(src, nbits)), nbits)
    ensures dst[BitsToLongs(nbits)..] == old(dst[BitsToLongs(nbits)..])
  {
    if nbits <= 64 {
      OneWord(src, nbits);
      LastWordLow(Not(src[0]), nbits);
      NotLowBits(src[0], nbits);
      dst[0] := And(Not(src[0]), LastWordMask(nbits));
      OneWord(dst, nbits);
    } else {
      Bitmap.Complement(dst, src, nbits);
    }
  }

  lemma NotLowBits(w: Word, nbits: nat)
    requires 0 < nbits <= 64
    ensures Not(w) % Pow2(nbits) == Complemented(w, nbits)
  {
    if nbits < 64 {
      NotLow(w, nbits);
    } else {
      WordRange();
      NoWrap(w, Pow2(64));
      NoWrap(Not(w), Pow2(64));
    }
  }

  // bitmap_equal
  method BitmapEqual(src1: array<Word>, src2: array<Word>, nbits: nat) returns (r: bool)
    requires Fits(src1, nbits) && Fits(src2, nbits)
    ensures r <==> Set(src1, nbits) == Set(src2, nbits)
  {
    if nbits <= 64 {
      OneWord(src1, nbits); OneWord(src2, nbits);
      LastWordLow(Xor(src1[0], src2[0]), nbits);
      XorLow(src1[0], src2[0], nbits);
      MembersDetermine(src1[0], src2[0], nbits);
      r := And(Xor(src1[0], src2[0]), LastWordMask(nbits)) == 0;
    } else {
      r := Bitmap.Equal(src1, src2, nbits);
    }
  }

  lemma NoMembers(x: nat, n: nat)
    ensures Members(x, n) == {} <==> x % Pow2(n) == 0
  {
    MembersDetermine(x, 0, n);
    MembersOfZero(n);
    LowOfZero(n);
  }

  // bitmap_intersects
  method BitmapIntersects(src1: array<Word>, src2: array<Word>, nbits: nat) returns (r: bool)
    requires Fits(src1, nbits) && Fits(src2, nbits)
    ensures r <==> Set(src1, nbits) * Set(src2, nbits) != {}
  {
    if nbits <= 64 {
      OneWord(src1, nbits); OneWord(src2, nbits);
      LastWordLow(And(src1[0], src2[0]), nbits);
      NoMembers(And(src1[0], src2[0]), nbits);
      MembersBitwise(AND, src1[0], src2[0], nbits);
      assert Members(And(src1[0], src2[0]), nbits) == Set(src1, nbits) * Set(src2, nbits);
      r := And(And(src1[0], src2[0]), LastWordMask(nbits)) != 0;
    } else {
      r := Bitmap.Intersects(src1, src2, nbits);
    }
  }

  // bitmap_empty
  method BitmapEmpty(src: array<Word>, nbits: nat) returns (r: bool)
    requires Fits(src, nbits)
    ensures r <==> Set(src, nbits) == {}
  {
    if nbits <= 64 {
      OneWord(src, nbits);
      LastWordLow(src[0], nbits);
      NoMembers(src[0], nbits);
      r := And(src[0], LastWordMask(nbits)) == 0;
    } else {
      r := Bitmap.Empty(src, nbits);
    }
  }

  lemma AllMembers(x: nat, n: nat)
    ensures Members(x, n) == UpTo(n) <==> x % Pow2(n) == Pow2(n) - 1
  {
    MembersDetermine(x, Pow2(n) - 1, n);
    MembersOfOnes(n, n);
    NoWrap(Pow2(n) - 1, Pow2(n));
  }

  // bitmap_full
  method BitmapFull(src: array<Word>, nbits: nat) returns (r: bool)
    requires Fits(src, nbits)
    ensures r <==> Set(src, nbits) == UpTo(nbits)
  {
    if nbits <= 64 {
      OneWord(src, nbits);
      LastWordLow(Not(src[0]), nbits);
      NotLowBits(src[0], nbits);
      AllMembers(src[0], nbits);
      r := And(Not(src[0]), LastWordMask(nbits)) == 0;
    } else {
      r := Bitmap.Full(src, nbits);
    }
  }

  // bitmap_weight
  method BitmapWeight(src: array<Word>, nbits: nat) returns (w: nat)
    requires Fits(src, nbits)
    ensures w == |Set(src, nbits)|
  {
    if nbits <= 64 {
      OneWord(src, nbits);
      LastWordLow(src[0], nbits);
      CountMembers(src[0], nbits);
      w := Weights.HweightLong(And(src[0], LastWordMask(nbits)));
    } else {
      w := Bitmap.Weight(src, nbits);
    }
  }

  // A shift count that the inline shifts are defined for.
  predicate ShiftAllowed(n: nat, nbits: nat) {
    if nbits <= 64 then n < 64 else n / 64 <= BitsToLongs(nbits)
  }

  // bitmap_shift_right; the one-word path does not mask its source.
  method BitmapShiftRight(dst: array<Word>, src: array<Word>, n: nat, nbits: nat)
    requires Fits(dst, nbits) && Fits(src, nbits) && ShiftAllowed(n, nbits)
    modifies dst
    ensures nbits <= 64 ==> Number(dst, nbits) == High(old(Number(src, nbits)), n)
    ensures nbits > 64 || old(Clean(src, nbits)) ==>
              Number(dst, nbits) == ShiftedRight(old(Number(src, nbits)), n, nbits)
    ensures dst[BitsToLongs(nbits)..] == old(dst[BitsToLongs(nbits)..])
  {
    if nbits <= 64 {
      OneWord(src, nbits);
      if Clean(src, nbits) {
        NoWrap(src[0], Pow2(nbits));
      }
      dst[0] := Shr(src[0], n);
      OneWord(dst, nbits);
    } else {
      Shifts.ShiftRight(dst, src, n, nbits);
    }
  }

  // The bits that a one-word right shift moves in from beyond nbits are all 0.
  ghost predicate NothingMovesIn(x: nat, n: nat, nbits: nat) {
    forall i :: n <= i && nbits <= i < nbits + n ==> !Bit(x, i)
  }

  // The one-word right shift agrees with the loop exactly when nothing moves in.
  lemma FastShiftRightExact(x: nat, n: nat, nbits: nat)
    ensures Members(High(x, n), nbits) == Members(ShiftedRight(x, n, nbits), nbits) <==> NothingMovesIn(x, n, nbits)
  {
    var fast, loop := Members(High(x, n), nbits), Members(ShiftedRight(x, n, nbits), nbits);
    forall j | 0 <= j < nbits
      ensures j in fast <==> Bit(x, n + j)
      ensures j in loop <==> n + j < nbits && Bit(x, n + j)
    {
      BitDiv(x, n, j);
      BitShiftedRight(x, n, nbits, j);
    }
    if fast == loop {
      forall i | n <= i && nbits <= i < nbits + n
        ensures !Bit(x, i)
      {
        assert i - n in fast <==> i - n in loop;
      }
    }
    if NothingMovesIn(x, n, nbits) {
      forall j | 0 <= j < nbits
        ensures j in fast <==> j in loop
      {
        assert n + j >= nbits ==> !Bit(x, n + j);
      }
      assert fast == loop;
    }
  }

  // They do differ: with one bit in use, the 1 above it moves in on the fast path only.
  lemma FastShiftRightDiffers()
    ensures Members(High(2, 1), 1) == {0} && Members(ShiftedRight(2, 1, 1), 1) == {}
  {
    assert Pow2(1) == 2;
    assert High(2, 1) == 1 && ShiftedRight(2, 1, 1) == 0;
    assert Bit(1, 0) && !Bit(0, 0);
  }

  // bitmap_shift_left
  method BitmapShiftLeft(dst: array<Word>, src: array<Word>, n: nat, nbits: nat)
    requires Fits(dst, nbits) && Fits(src, nbits) && ShiftAllowed(n, nbits)
    modifies dst
    ensures Number(dst, nbits) == ShiftedLeft(old(Number(src, nbits)), n, nbits)
    ensures dst[BitsToLongs(nbits)..] == old(dst[BitsToLongs(nbits)..])
  {
    if nbits <= 64 {
      OneWord(src, nbits);
      LastWordLow(Shl(src[0], n), nbits);
      ShlThenMask(src[0], n, nbits);
      dst[0] := And(Shl(src[0], n), LastWordMask(nbits));
      OneWord(dst, nbits);
    } else {
      Shifts.ShiftLeft(dst, src, n, nbits);
    }
  }

  lemma ShlThenMask(w: Word, n: nat, nbits: nat)
    requires nbits <= 64
    ensures Shl(w, n) % Pow2(nbits) == ShiftedLeft(w, n, nbits)
  {
    var y := ShiftedLeft(w, n, nbits);
    forall j | 0 <= j < nbits
      ensures Bit(y, j) == Bit(Shl(w, n), j)
    {
      BitShiftedLeft(w, n, nbits, j);
      BitShl(w, n, j);
    }
    LowDetermined(Shl(w, n), y, nbits);
  }
}
