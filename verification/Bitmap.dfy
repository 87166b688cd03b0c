/** The word loops of bitmap.c: predicates, weight, complement and the binary operations. */
module Bitmap {
  import opened Bits
  import opened Words
  import Weights

  // The number stored in the words of a bitmap of the given size, tail included.
  function Number(a: array<Word>, bits: nat): nat
    requires BitsToLongs(bits) <= a.Length
    reads a
  {
    Value(a[..BitsToLongs(bits)])
  }

  // The set stored in a bitmap; what lies in the last word beyond `bits` does not matter.
  function Set(a: array<Word>, bits: nat): set<nat>
    requires BitsToLongs(bits) <= a.Length
    reads a
  {
    Members(Number(a, bits), bits)
  }

  // The unused bits of the last word are all 0.
  predicate Clean(a: array<Word>, bits: nat)
    requires BitsToLongs(bits) <= a.Length
    reads a
  {
    Number(a, bits) < Pow2(bits)
  }

  // All positions of a bitmap.
  function UpTo(n: nat): (s: set<nat>)
    ensures forall i :: i in s <==> 0 <= i < n
    ensures |s| == n
  {
    if n == 0 then {} else UpTo(n - 1) + {n - 1}
  }

  // ---------------------------------------------------------------------------
  // Set facts and words
  // ---------------------------------------------------------------------------

  ghost predicate AllWords(s: seq<Word>, n: nat, c: Word)
    requires n <= |s|
  {
    forall k :: 0 <= k < n ==> s[k] == c
  }

  lemma OneMoreWord(s: seq<Word>, k: nat, c: Word)
    requires k < |s| && AllWords(s, k, c)
    ensures AllWords(s, k + 1, c) <==> s[k] == c
  {
  }

  lemma WordInTheWay(s: seq<Word>, k: nat, n: nat, c: Word)
    requires k < n <= |s| && s[k] != c
    ensures !AllWords(s, n, c)
  {
  }

  // Masking the last word of a row, where the row does not end at a word boundary.
  lemma MaskedTail(s: seq<Word>, bits: nat, w: Word)
    requires bits % 64 != 0 && BitsToLongs(bits) <= |s| && w == s[bits / 64]
    ensures And(w, LastWordMask(bits)) == PartialWord(s, bits)
  {
    AndLastWordMask(w, bits);
  }

  // Agreeing with a row that repeats one word.
  lemma SameAsConstant(s: seq<Word>, t: seq<Word>, c: Word, bits: nat)
    requires |s| == |t| == BitsToLongs(bits)
    requires forall k :: 0 <= k < |t| ==> t[k] == c
    ensures SameLowWords(s, t, bits) <==>
            AllWords(s, bits / 64, c) && PartialWord(s, bits) == PartialWord(t, bits)
  {
    var q := bits / 64;
    if s[..q] == t[..q] {
      forall k | 0 <= k < q
        ensures s[k] == c
      {
        assert s[k] == s[..q][k] == t[..q][k];
      }
    }
  }

  lemma EmptyWords(s: seq<Word>, bits: nat)
    requires |s| == BitsToLongs(bits)
    ensures Members(Value(s), bits) == {} <==>
            AllWords(s, bits / 64, 0) && PartialWord(s, bits) == 0
  {
    var zeros: seq<Word> := seq(|s|, _ => 0);
    assert Value(zeros) == 0 by { ValueZeros(zeros); }
    assert PartialWord(zeros, bits) == 0 by { LowOfZero(bits % 64); }
    SameAsConstant(s, zeros, 0, bits);
    SameLow(s, zeros, bits);
    MembersDetermine(Value(s), 0, bits);
    MembersOfZero(bits);
    LowOfZero(bits);
  }

  lemma LowOfZero(n: nat)
    ensures 0 % Pow2(n) == 0
  {
    NoWrap(0, Pow2(n));
  }

  lemma MembersOfZero(bits: nat)
    ensures Members(0, bits) == {}
  {
    forall i | 0 <= i < bits
      ensures i !in Members(0, bits)
    {
      BitZero(i);
    }
  }

  lemma FullWords(s: seq<Word>, bits: nat)
    requires |s| == BitsToLongs(bits)
    ensures Members(Value(s), bits) == UpTo(bits) <==>
            AllWords(s, bits / 64, ULONG_MAX) && PartialWord(s, bits) == Pow2(bits % 64) - 1
  {
    var ones: seq<Word> := seq(|s|, _ => ULONG_MAX);
    assert Members(Value(ones), bits) == UpTo(bits) by { MembersOfFull(ones, bits); }
    assert PartialWord(ones, bits) == Pow2(bits % 64) - 1 by { OnesLow(bits % 64); }
    SameAsConstant(s, ones, ULONG_MAX, bits);
    SameLow(s, ones, bits);
    MembersDetermine(Value(s), Value(ones), bits);
  }

  lemma MembersOfFull(ones: seq<Word>, bits: nat)
    requires |ones| == BitsToLongs(bits) && AllWords(ones, |ones|, ULONG_MAX)
    ensures Members(Value(ones), bits) == UpTo(bits)
  {
    ValueOnes(ones);
    BitsInWords(bits);
    MembersOfOnes(64 * |ones|, bits);
  }

  lemma MembersOfOnes(n: nat, bits: nat)
    requires bits <= n
    ensures Members(Pow2(n) - 1, bits) == UpTo(bits)
  {
    var ones: nat := Pow2(n) - 1;
    forall i | 0 <= i < bits
      ensures i in Members(ones, bits)
    {
      BitOnes(n, i);
    }
  }

  lemma OnesLow(r: nat)
    requires r < 64
    ensures ULONG_MAX % Pow2(r) == Pow2(r) - 1
  {
    WordRange();
    Pow2Add(r, 64 - r);
    MulDistrib(Pow2(r), Pow2(64 - r) - 1, 1);
    DivModUnique(ULONG_MAX, Pow2(r), Pow2(64 - r) - 1, Pow2(r) - 1);
  }

  lemma NotLow(w: Word, r: nat)
    requires r < 64
    ensures Not(w) % Pow2(r) == Pow2(r) - 1 - w % Pow2(r)
  {
    forall i | 0 <= i < r
      ensures Bit(Pow2(r) - 1 - w % Pow2(r), i) == Bit(Not(w), i)
    {
      BitNot(w, i);
      BitComplement(w % Pow2(r), r, i);
      BitMod(w, r, i);
    }
    LowDetermined(Not(w), Pow2(r) - 1 - w % Pow2(r), r);
  }

  lemma XorLow(x: nat, y: nat, n: nat)
    ensures Bitwise(XOR, x, y) % Pow2(n) == 0 <==> x % Pow2(n) == y % Pow2(n)
  {
    MembersDetermine(Bitwise(XOR, x, y), 0, n);
    MembersOfZero(n);
    MembersDetermine(x, y, n);
    forall i | 0 <= i < n
      ensures i in Members(Bitwise(XOR, x, y), n) <==> (i in Members(x, n)) != (i in Members(y, n))
    {
      BitBitwise(XOR, x, y, i);
    }
    LowOfZero(n);
  }

  // ---------------------------------------------------------------------------
  // Predicates
  // ---------------------------------------------------------------------------

  // __bitmap_empty
  method Empty(bitmap: array<Word>, bits: nat) returns (r: bool)
    requires BitsToLongs(bits) <= bitmap.Length
    ensures r <==> Set(bitmap, bits) == {}
  {
    ghost var s := bitmap[..BitsToLongs(bits)];
    EmptyWords(s, bits);
    var k: nat, lim: nat := 0, bits / 64;
    while k < lim
      invariant k <= lim && AllWords(s, k, 0)
    {
      OneMoreWord(s, k, 0);
      if bitmap[k] != 0 {
        WordInTheWay(s, k, lim, 0);
        return false;
      }
      k := k + 1;
    }
    if bits % 64 != 0 {
      MaskedTail(s, bits, bitmap[k]);
      if And(bitmap[k], LastWordMask(bits)) != 0 {
        return false;
      }
    }
    return true;
  }

  lemma FullTail(s: seq<Word>, bits: nat, w: Word)
    requires bits % 64 != 0 && BitsToLongs(bits) <= |s| && w == s[bits / 64]
    ensures And(Not(w), LastWordMask(bits)) == 0 <==> PartialWord(s, bits) == Pow2(bits % 64) - 1
  {
    AndLastWordMask(Not(w), bits);
    NotLow(w, bits % 64);
  }

  // __bitmap_full
  method Full(bitmap: array<Word>, bits: nat) returns (r: bool)
    requires BitsToLongs(bits) <= bitmap.Length
    ensures r <==> Set(bitmap, bits) == UpTo(bits)
  {
    ghost var s := bitmap[..BitsToLongs(bits)];
    FullWords(s, bits);
    var k: nat, lim: nat := 0, bits / 64;
    while k < lim
      invariant k <= lim && AllWords(s, k, ULONG_MAX)
    {
      OneMoreWord(s, k, ULONG_MAX);
      if Not(bitmap[k]) != 0 {
        WordInTheWay(s, k, lim, ULONG_MAX);
        return false;
      }
      k := k + 1;
    }
    if bits % 64 != 0 {
      FullTail(s, bits, bitmap[k]);
      if And(Not(bitmap[k]), LastWordMask(bits)) != 0 {
        return false;
      }
    }
    return true;
  }

  lemma WeightOfWord(s: seq<Word>, k: nat)
    requires k < |s|
    ensures Count(Value(s[..k + 1])) == Count(Value(s[..k])) + Count(s[k])
  {
    ValueStep(s, k);
    ValueBound(s[..k]);
    CountJoin(Value(s[..k]), s[k], 64 * k);
  }

  // The weight of a bitmap: that of its whole words, and of its part of the last one.
  lemma WeightOfWords(s: seq<Word>, bits: nat)
    requires BitsToLongs(bits) <= |s|
    ensures |Members(Value(s), bits)| == Count(Value(s[..bits / 64])) + Count(PartialWord(s, bits))
  {
    CountMembers(Value(s), bits);
    LowBits(s, bits);
    ValueBound(s[..bits / 64]);
    CountJoin(Value(s[..bits / 64]), PartialWord(s, bits), 64 * (bits / 64));
  }

  // __bitmap_weight
  method Weight(bitmap: array<Word>, bits: nat) returns (w: nat)
    requires BitsToLongs(bits) <= bitmap.Length
    ensures w == |Set(bitmap, bits)|
  {
    ghost var s := bitmap[..BitsToLongs(bits)];
    var k: nat, lim: nat := 0, bits / 64;
    w := 0;
    while k < lim
      invariant k <= lim
      invariant w == Count(Value(s[..k]))
    {
      var h := Weights.HweightLong(bitmap[k]);
      WeightOfWord(s, k);
      w := w + h;
      k := k + 1;
    }
    WeightOfWords(s, bits);
    if bits % 64 != 0 {
      MaskedTail(s, bits, bitmap[k]);
      var h := Weights.HweightLong(And(bitmap[k], LastWordMask(bits)));
      w := w + h;
    }
  }

  lemma OneMorePair(s: seq<Word>, t: seq<Word>, k: nat)
    requires k < |s| && k < |t| && s[..k] == t[..k]
    ensures s[..k + 1] == t[..k + 1] <==> s[k] == t[k]
  {
    assert s[..k + 1] == s[..k] + [s[k]];
    assert t[..k + 1] == t[..k] + [t[k]];
    assert (s[..k] + [s[k]])[k] == s[k] && (t[..k] + [t[k]])[k] == t[k];
  }

  lemma PairInTheWay(s: seq<Word>, t: seq<Word>, k: nat, n: nat)
    requires k < n <= |s| && n <= |t| && s[k] != t[k]
    ensures s[..n] != t[..n]
  {
    assert s[..n][k] != t[..n][k];
  }

  lemma EqualTail(s: seq<Word>, t: seq<Word>, bits: nat, v: Word, w: Word)
    requires bits % 64 != 0 && BitsToLongs(bits) <= |s| && BitsToLongs(bits) <= |t|
    requires v == s[bits / 64] && w == t[bits / 64]
    ensures And(Xor(v, w), LastWordMask(bits)) == 0 <==> PartialWord(s, bits) == PartialWord(t, bits)
  {
    AndLastWordMask(Xor(v, w), bits);
    XorLow(v, w, bits % 64);
  }

  lemma EqualWords(s: seq<Word>, t: seq<Word>, bits: nat)
    requires BitsToLongs(bits) <= |s| && BitsToLongs(bits) <= |t|
    ensures Members(Value(s), bits) == Members(Value(t), bits) <==> SameLowWords(s, t, bits)
  {
    SameLow(s, t, bits);
    MembersDetermine(Value(s), Value(t), bits);
  }

  // __bitmap_equal
  method Equal(bitmap1: array<Word>, bitmap2: array<Word>, bits: nat) returns (r: bool)
    requires BitsToLongs(bits) <= bitmap1.Length && BitsToLongs(bits) <= bitmap2.Length
    ensures r <==> Set(bitmap1, bits) == Set(bitmap2, bits)
  {
    ghost var s, t := bitmap1[..BitsToLongs(bits)], bitmap2[..BitsToLongs(bits)];
    EqualWords(s, t, bits);
    var k: nat, lim: nat := 0, bits / 64;
    while k < lim
      invariant k <= lim && s[..k] == t[..k]
    {
      OneMorePair(s, t, k);
      if bitmap1[k] != bitmap2[k] {
        PairInTheWay(s, t, k, lim);
        return false;
      }
      k := k + 1;
    }
    if bits % 64 != 0 {
      EqualTail(s, t, bits, bitmap1[k], bitmap2[k]);
      if And(Xor(bitmap1[k], bitmap2[k]), LastWordMask(bits)) != 0 {
        return false;
      }
    }
    return true;
  }

  lemma MembersBitwise(g: Gate, x: nat, y: nat, n: nat)
    ensures forall i :: i in Members(Bitwise(g, x, y), n) <==>
                        0 <= i < n && g.Out(i in Members(x, n), i in Members(y, n))
  {
    forall i: nat | i < n
      ensures Bit(Bitwise(g, x, y), i) <==> g.Out(i in Members(x, n), i in Members(y, n))
    {
      BitBitwise(g, x, y, i);
    }
  }

  lemma CommonWords(s: seq<Word>, t: seq<Word>, bits: nat) returns (both: seq<Word>)
    requires |s| == |t| == BitsToLongs(bits)
    ensures |both| == |s| && forall k :: 0 <= k < |s| ==> both[k] == And(s[k], t[k])
    ensures Members(Value(s), bits) * Members(Value(t), bits) == {} <==>
            AllWords(both, bits / 64, 0) && PartialWord(both, bits) == 0
  {
    both := seq(|s|, i requires 0 <= i < |s| => And(s[i], t[i]));
    ValueBitwise(AND, both, s, t);
    MembersBitwise(AND, Value(s), Value(t), bits);
    assert Members(Value(both), bits) == Members(Value(s), bits) * Members(Value(t), bits);
    EmptyWords(both, bits);
  }

  // __bitmap_intersects
  method Intersects(bitmap1: array<Word>, bitmap2: array<Word>, bits: nat) returns (r: bool)
    requires BitsToLongs(bits) <= bitmap1.Length && BitsToLongs(bits) <= bitmap2.Length
    ensures r <==> Set(bitmap1, bits) * Set(bitmap2, bits) != {}
  {
    ghost var s, t := bitmap1[..BitsToLongs(bits)], bitmap2[..BitsToLongs(bits)];
    ghost var both := CommonWords(s, t, bits);
    var k: nat, lim: nat := 0, bits / 64;
    while k < lim
      invariant k <= lim && AllWords(both, k, 0)
    {
      OneMoreWord(both, k, 0);
      if And(bitmap1[k], bitmap2[k]) != 0 {
        WordInTheWay(both, k, lim, 0);
        return true;
      }
      k := k + 1;
    }
    if bits % 64 != 0 {
      MaskedTail(both, bits, And(bitmap1[k], bitmap2[k]));
      if And(And(bitmap1[k], bitmap2[k]), LastWordMask(bits)) != 0 {
        return true;
      }
    }
    return false;
  }

  // ---------------------------------------------------------------------------
  // Complement and the binary operations; dst may be one of the sources
  // ---------------------------------------------------------------------------

  lemma ComplementWord(s: seq<Word>, bits: nat, k: nat)
    requires |s| == BitsToLongs(bits) && k < |s|
    ensures Digit(Complemented(Value(s), bits), k) == TopMasked(Not(s[k]), bits, k)
  {
    var x, y := Digit(Complemented(Value(s), bits), k), TopMasked(Not(s[k]), bits, k);
    DigitOfValue(s, k);
    forall b | 0 <= b < 64
      ensures Bit(x, b) == Bit(y, b)
    {
      BitDigit(Complemented(Value(s), bits), k, b);
      BitComplemented(Value(s), bits, 64 * k + b);
      BitDigit(Value(s), k, b);
      BitTopMasked(Not(s[k]), bits, k, b);
      BitNot(s[k], b);
    }
    SameBits(x, y);
  }

  lemma RoomFor(bits: nat)
    ensures Pow2(bits) <= Pow2(64 * BitsToLongs(bits))
  {
    BitsInWords(bits);
    Pow2Mono(bits, 64 * BitsToLongs(bits));
  }

  // memset over whole words.
  method Memset(dst: array<Word>, from: nat, count: nat, w: Word)
    requires from + count <= dst.Length
    modifies dst
    ensures forall i :: 0 <= i < dst.Length ==> dst[i] == if from <= i < from + count then w else old(dst[i])
  {
    forall i | from <= i < from + count {
      dst[i] := w;
    }
  }

  lemma ComplementDone(s: seq<Word>, t: seq<Word>, bits: nat)
    requires |t| == BitsToLongs(bits)
    requires forall k :: 0 <= k < |t| ==> t[k] == Digit(Complemented(Value(s), bits), k)
    ensures Value(t) == Complemented(Value(s), bits)
  {
    RoomFor(bits);
    ValueOfDigits(t, Complemented(Value(s), bits));
  }

  // __bitmap_complement
  method Complement(dst: array<Word>, src: array<Word>, bits: nat)
    requires BitsToLongs(bits) <= dst.Length && BitsToLongs(bits) <= src.Length
    modifies dst
    ensures Number(dst, bits) == Complemented(old(Number(src, bits)), bits)
    ensures dst[BitsToLongs(bits)..] == old(dst[BitsToLongs(bits)..])
  {
    ghost var s := src[..BitsToLongs(bits)];
    ghost var target: nat := Complemented(Value(s), bits);
    var k: nat, lim: nat := 0, bits / 64;
    while k < lim
      invariant k <= lim
      invariant forall j :: 0 <= j < k ==> dst[j] == Digit(target, j)
      invariant forall j :: k <= j < |s| ==> src[j] == s[j]
      invariant dst[BitsToLongs(bits)..] == old(dst[BitsToLongs(bits)..])
    {
      ComplementWord(s, bits, k);
      dst[k] := Not(src[k]);
      k := k + 1;
    }
    if bits % 64 != 0 {
      ComplementWord(s, bits, k);
      dst[k] := And(Not(src[k]), LastWordMask(bits));
    }
    ComplementDone(s, dst[..BitsToLongs(bits)], bits);
  }

  // __bitmap_and
  method AndWords(dst: array<Word>, bitmap1: array<Word>, bitmap2: array<Word>, bits: nat)
    requires BitsToLongs(bits) <= dst.Length
    requires BitsToLongs(bits) <= bitmap1.Length && BitsToLongs(bits) <= bitmap2.Length
    modifies dst
    ensures Number(dst, bits) == Bitwise(AND, old(Number(bitmap1, bits)), old(Number(bitmap2, bits)))
    ensures dst[BitsToLongs(bits)..] == old(dst[BitsToLongs(bits)..])
  {
    var k: nat, nr: nat := 0, BitsToLongs(bits);
    ghost var a, b := bitmap1[..nr], bitmap2[..nr];
    while k < nr
      invariant k <= nr
      invariant forall j :: 0 <= j < k ==> dst[j] == And(a[j], b[j])
      invariant forall j :: k <= j < nr ==> bitmap1[j] == a[j] && bitmap2[j] == b[j]
      invariant dst[nr..] == old(dst[nr..])
    {
      dst[k] := And(bitmap1[k], bitmap2[k]);
      k := k + 1;
    }
    ValueBitwise(AND, dst[..nr], a, b);
  }

  // __bitmap_or
  method OrWords(dst: array<Word>, bitmap1: array<Word>, bitmap2: array<Word>, bits: nat)
    requires BitsToLongs(bits) <= dst.Length
    requires BitsToLongs(bits) <= bitmap1.Length && BitsToLongs(bits) <= bitmap2.Length
    modifies dst
    ensures Number(dst, bits) == Bitwise(OR, old(Number(bitmap1, bits)), old(Number(bitmap2, bits)))
    ensures dst[BitsToLongs(bits)..] == old(dst[BitsToLongs(bits)..])
  {
    var k: nat, nr: nat := 0, BitsToLongs(bits);
    ghost var a, b := bitmap1[..nr], bitmap2[..nr];
    while k < nr
      invariant k <= nr
      invariant forall j :: 0 <= j < k ==> dst[j] == Or(a[j], b[j])
      invariant forall j :: k <= j < nr ==> bitmap1[j] == a[j] && bitmap2[j] == b[j]
      invariant dst[nr..] == old(dst[nr..])
    {
      dst[k] := Or(bitmap1[k], bitmap2[k]);
      k := k + 1;
    }
    ValueBitwise(OR, dst[..nr], a, b);
  }

  // __bitmap_xor
  method XorWords(dst: array<Word>, bitmap1: array<Word>, bitmap2: array<Word>, bits: nat)
    requires BitsToLongs(bits) <= dst.Length
    requires BitsToLongs(bits) <= bitmap1.Length && BitsToLongs(bits) <= bitmap2.Length
    modifies dst
    ensures Number(dst, bits) == Bitwise(XOR, old(Number(bitmap1, bits)), old(Number(bitmap2, bits)))
    ensures dst[BitsToLongs(bits)..] == old(dst[BitsToLongs(bits)..])
  {
    var k: nat, nr: nat := 0, BitsToLongs(bits);
    ghost var a, b := bitmap1[..nr], bitmap2[..nr];
    while k < nr
      invariant k <= nr
      invariant forall j :: 0 <= j < k ==> dst[j] == Xor(a[j], b[j])
      invariant forall j :: k <= j < nr ==> bitmap1[j] == a[j] && bitmap2[j] == b[j]
      invariant dst[nr..] == old(dst[nr..])
    {
      dst[k] := Xor(bitmap1[k], bitmap2[k]);
      k := k + 1;
    }
    ValueBitwise(XOR, dst[..nr], a, b);
  }

  lemma AndNot(x: Word, y: Word)
    ensures And(x, Not(y)) == Bitwise(ANDNOT, x, y)
  {
    WordRange();
    BitwiseBound(ANDNOT, x, y, 64);
    forall i | 0 <= i < 64
      ensures Bit(And(x, Not(y)), i) == Bit(Bitwise(ANDNOT, x, y), i)
    {
      BitBitwise(AND, x, Not(y), i);
      BitNot(y, i);
      BitBitwise(ANDNOT, x, y, i);
    }
    SameBits(And(x, Not(y)), Bitwise(ANDNOT, x, y));
  }

  // __bitmap_andnot
  method AndNotWords(dst: array<Word>, bitmap1: array<Word>, bitmap2: array<Word>, bits: nat)
    requires BitsToLongs(bits) <= dst.Length
    requires BitsToLongs(bits) <= bitmap1.Length && BitsToLongs(bits) <= bitmap2.Length
    modifies dst
    ensures Number(dst, bits) == Bitwise(ANDNOT, old(Number(bitmap1, bits)), old(Number(bitmap2, bits)))
    ensures dst[BitsToLongs(bits)..] == old(dst[BitsToLongs(bits)..])
  {
    var k: nat, nr: nat := 0, BitsToLongs(bits);
    ghost var a, b := bitmap1[..nr], bitmap2[..nr];
    while k < nr
      invariant k <= nr
      invariant forall j :: 0 <= j < k ==> dst[j] == Bitwise(ANDNOT, a[j], b[j])
      invariant forall j :: k <= j < nr ==> bitmap1[j] == a[j] && bitmap2[j] == b[j]
      invariant dst[nr..] == old(dst[nr..])
    {
      AndNot(bitmap1[k], bitmap2[k]);
      dst[k] := And(bitmap1[k], Not(bitmap2[k]));
      k := k + 1;
    }
    ValueBitwise(ANDNOT, dst[..nr], a, b);
  }
}
