/** The single-bit operations of non-atomic.h, on a whole array of words. */
module BitOps {
  import opened Bits
  import opened Words
  import opened Bitmap

  // BITOP_MASK
  function BitMask(nr: nat): Word {
    Shl(1, nr % 64)
  }

  // BITOP_WORD
  function BitWord(nr: nat): nat {
    nr / 64
  }

  lemma {:induction false} BitOfPow2(n: nat, i: nat)
    ensures Bit(Pow2(n), i) == (i == n)
    decreases n
  {
    if n == 0 {
      if i > 0 {
        BitZero(i - 1);
      }
    } else if i > 0 {
      BitOfPow2(n - 1, i - 1);
    }
  }

  lemma BitOfMask(nr: nat, b: nat)
    ensures Bit(BitMask(nr), b) == (b == nr % 64)
  {
    ShlOne(nr % 64);
    BitOfPow2(nr % 64, b);
  }

  // The row whose only 1 is bit nr.
  function OneBit(len: nat, nr: nat): (s: seq<Word>)
    ensures |s| == len
  {
    seq(len, k requires k >= 0 => WordOfBit(nr, k))
  }

  function WordOfBit(nr: nat, k: nat): Word {
    if k == BitWord(nr) then BitMask(nr) else 0
  }

  lemma ValueOfOneBit(len: nat, nr: nat)
    requires BitWord(nr) < len
    ensures Value(OneBit(len, nr)) == Pow2(nr)
  {
    Pow2Mono(nr + 1, 64 * len);
    forall k | 0 <= k < len
      ensures OneBit(len, nr)[k] == Digit(Pow2(nr), k)
    {
      DigitOfPow2(nr, k);
    }
    ValueOfDigits(OneBit(len, nr), Pow2(nr));
  }

  lemma DigitOfPow2(nr: nat, k: nat)
    ensures Digit(Pow2(nr), k) == if k == BitWord(nr) then BitMask(nr) else 0
  {
    var y := if k == BitWord(nr) then BitMask(nr) else 0;
    forall b | 0 <= b < 64
      ensures Bit(Digit(Pow2(nr), k), b) == Bit(y, b)
    {
      BitDigit(Pow2(nr), k, b);
      BitOfPow2(nr, 64 * k + b);
      BitOfMask(nr, b);
      BitZero(b);
    }
    SameBits(Digit(Pow2(nr), k), y);
  }

  // Updating one word through the mask is an operation on the whole number.
  lemma UpdateWord(g: Gate, s: seq<Word>, t: seq<Word>, nr: nat)
    requires !g.AND? && BitWord(nr) < |s| == |t|
    requires forall k :: 0 <= k < |s| ==> t[k] == if k == BitWord(nr) then Bitwise(g, s[k], BitMask(nr)) else s[k]
    ensures Value(t) == Bitwise(g, Value(s), Pow2(nr))
  {
    var m := OneBit(|s|, nr);
    forall k | 0 <= k < |s|
      ensures t[k] == Bitwise(g, s[k], m[k])
    {
      BitwiseZero(g, s[k]);
    }
    ValueBitwise(g, t, s, m);
    ValueOfOneBit(|s|, nr);
  }

  lemma TestMask(w: Word, nr: nat)
    ensures And(w, BitMask(nr)) != 0 <==> Bit(w, nr % 64)
  {
    forall b | 0 <= b < 64
      ensures Bit(And(w, BitMask(nr)), b) == (b == nr % 64 && Bit(w, b))
    {
      BitBitwise(AND, w, BitMask(nr), b);
      BitOfMask(nr, b);
    }
    if And(w, BitMask(nr)) == 0 {
      BitZero(nr % 64);
    } else if !Bit(w, nr % 64) {
      forall b | 0 <= b < 64
        ensures Bit(And(w, BitMask(nr)), b) == Bit(0, b)
      {
        BitZero(b);
      }
      SameBits(And(w, BitMask(nr)), 0);
    }
  }

  // test_bit
  method TestBit(nr: nat, addr: array<Word>) returns (r: Word)
    requires BitWord(nr) < addr.Length
    ensures r == BitOf(Bit(Value(addr[..]), nr))
  {
    BitValue(addr[..], nr);
    LowSix(nr);
    BitShr(addr[BitWord(nr)], nr % 64, 0);
    r := Shr(addr[BitWord(nr)], Bitwise(AND, nr, 63));
    AndOne(r);
    r := And(1, r);
  }

  lemma LowSix(nr: nat)
    ensures Bitwise(AND, nr, 63) == nr % 64
  {
    Pow2Product(1, 1, 2, 2);
    Pow2Product(2, 2, 4, 4);
    Pow2Product(4, 2, 16, 4);
    AndMask(nr, 6);
  }

  lemma AndOne(x: nat)
    ensures Bitwise(AND, 1, x) == x % 2
  {
    BitwiseZero(AND, x / 2);
  }

  // set_bit
  method SetBit(nr: nat, addr: array<Word>)
    requires BitWord(nr) < addr.Length
    modifies addr
    ensures Value(addr[..]) == Bitwise(OR, old(Value(addr[..])), Pow2(nr))
  {
    var p := BitWord(nr);
    addr[p] := Or(addr[p], BitMask(nr));
    UpdateWord(OR, old(addr[..]), addr[..], nr);
  }

  // clear_bit
  method ClearBit(nr: nat, addr: array<Word>)
    requires BitWord(nr) < addr.Length
    modifies addr
    ensures Value(addr[..]) == Bitwise(ANDNOT, old(Value(addr[..])), Pow2(nr))
  {
    var p := BitWord(nr);
    AndNot(addr[p], BitMask(nr));
    addr[p] := And(addr[p], Not(BitMask(nr)));
    UpdateWord(ANDNOT, old(addr[..]), addr[..], nr);
  }

  // __change_bit
  method ChangeBit(nr: nat, addr: array<Word>)
    requires BitWord(nr) < addr.Length
    modifies addr
    ensures Value(addr[..]) == Bitwise(XOR, old(Value(addr[..])), Pow2(nr))
  {
    var p := BitWord(nr);
    addr[p] := Xor(addr[p], BitMask(nr));
    UpdateWord(XOR, old(addr[..]), addr[..], nr);
  }

  // __test_and_set_bit
  method TestAndSetBit(nr: nat, addr: array<Word>) returns (r: bool)
    requires BitWord(nr) < addr.Length
    modifies addr
    ensures r == Bit(old(Value(addr[..])), nr)
    ensures Value(addr[..]) == Bitwise(OR, old(Value(addr[..])), Pow2(nr))
  {
    var mask, p := BitMask(nr), BitWord(nr);
    var previous := addr[p];
    BitValue(addr[..], nr);
    TestMask(previous, nr);
    addr[p] := Or(previous, mask);
    UpdateWord(OR, old(addr[..]), addr[..], nr);
    return And(previous, mask) != 0;
  }

  // __test_and_clear_bit
  method TestAndClearBit(nr: nat, addr: array<Word>) returns (r: bool)
    requires BitWord(nr) < addr.Length
    modifies addr
    ensures r == Bit(old(Value(addr[..])), nr)
    ensures Value(addr[..]) == Bitwise(ANDNOT, old(Value(addr[..])), Pow2(nr))
  {
    var mask, p := BitMask(nr), BitWord(nr);
    var previous := addr[p];
    BitValue(addr[..], nr);
    TestMask(previous, nr);
    AndNot(previous, mask);
    addr[p] := And(previous, Not(mask));
    UpdateWord(ANDNOT, old(addr[..]), addr[..], nr);
    return And(previous, mask) != 0;
  }

  // __test_and_change_bit
  method TestAndChangeBit(nr: nat, addr: array<Word>) returns (r: bool)
    requires BitWord(nr) < addr.Length
    modifies addr
    ensures r == Bit(old(Value(addr[..])), nr)
    ensures Value(addr[..]) == Bitwise(XOR, old(Value(addr[..])), Pow2(nr))
  {
    var mask, p := BitMask(nr), BitWord(nr);
    var previous := addr[p];
    BitValue(addr[..], nr);
    TestMask(previous, nr);
    addr[p] := Xor(previous, mask);
    UpdateWord(XOR, old(addr[..]), addr[..], nr);
    return And(previous, mask) != 0;
  }

  // ---------------------------------------------------------------------------
  // What the updates do to the set and to its weight
  // ---------------------------------------------------------------------------

  // An update through the mask of nr decides bit nr and leaves every other bit alone.
  lemma OtherBitsStay(g: Gate, x: nat, nr: nat, i: nat)
    requires !g.AND?
    ensures Bit(Bitwise(g, x, Pow2(nr)), i) ==
            if i != nr then Bit(x, i) else if g.OR? then true else if g.ANDNOT? then false else !Bit(x, nr)
  {
    BitBitwise(g, x, Pow2(nr), i);
    BitOfPow2(nr, i);
  }

  lemma MembersAfterSet(x: nat, nr: nat, n: nat)
    requires nr < n
    ensures Members(Bitwise(OR, x, Pow2(nr)), n) == Members(x, n) + {nr}
    ensures |Members(Bitwise(OR, x, Pow2(nr)), n)| == |Members(x, n)| + 1 - BitOf(Bit(x, nr))
  {
    MembersBitwise(OR, x, Pow2(nr), n);
    OnlyMember(nr, n);
    assert Members(Bitwise(OR, x, Pow2(nr)), n) == Members(x, n) + {nr};
  }

  lemma MembersAfterClear(x: nat, nr: nat, n: nat)
    requires nr < n
    ensures Members(Bitwise(ANDNOT, x, Pow2(nr)), n) == Members(x, n) - {nr}
    ensures |Members(Bitwise(ANDNOT, x, Pow2(nr)), n)| == |Members(x, n)| - BitOf(Bit(x, nr))
  {
    MembersBitwise(ANDNOT, x, Pow2(nr), n);
    OnlyMember(nr, n);
    assert Members(Bitwise(ANDNOT, x, Pow2(nr)), n) == Members(x, n) - {nr};
  }

  lemma MembersAfterChange(x: nat, nr: nat, n: nat)
    requires nr < n
    ensures Members(Bitwise(XOR, x, Pow2(nr)), n) == if Bit(x, nr) then Members(x, n) - {nr} else Members(x, n) + {nr}
    ensures |Members(Bitwise(XOR, x, Pow2(nr)), n)| == |Members(x, n)| + 1 - 2 * BitOf(Bit(x, nr))
  {
    var g := if Bit(x, nr) then ANDNOT else OR;
    var y, z := Bitwise(XOR, x, Pow2(nr)), Bitwise(g, x, Pow2(nr));
    forall i | 0 <= i < n
      ensures Bit(y, i) == Bit(z, i)
    {
      BitBitwise(XOR, x, Pow2(nr), i);
      BitBitwise(g, x, Pow2(nr), i);
      BitOfPow2(nr, i);
    }
    assert Members(y, n) == Members(z, n);
    if Bit(x, nr) {
      MembersAfterClear(x, nr, n);
    } else {
      MembersAfterSet(x, nr, n);
    }
  }

  lemma OnlyMember(nr: nat, n: nat)
    requires nr < n
    ensures Members(Pow2(nr), n) == {nr}
  {
    forall i | 0 <= i < n
      ensures i in Members(Pow2(nr), n) <==> i == nr
    {
      BitOfPow2(nr, i);
    }
  }

  // The set that a bitmap stores in an array does not depend on the words beyond it.
  lemma SetOfArray(a: array<Word>, bits: nat)
    requires BitsToLongs(bits) <= a.Length
    ensures Members(Value(a[..]), bits) == Set(a, bits)
  {
    BitsInWords(bits);
    forall i: nat | i < bits
      ensures i in Members(Value(a[..]), bits) <==> i in Set(a, bits)
    {
      BitValue(a[..], i);
      BitValue(a[..BitsToLongs(bits)], i);
    }
  }

  lemma WordOfBitBelow(nr: nat, bits: nat)
    requires nr < bits
    ensures BitWord(nr) < BitsToLongs(bits)
  {
    BitsInWords(bits);
    DivMod(nr, 64);
  }

  // Weighing a bitmap before and after __test_and_set_bit: what the call returns accounts for the difference.
  method WeighAroundSet(nr: nat, addr: array<Word>, bits: nat) returns (before: nat, r: bool, after: nat)
    requires nr < bits && BitsToLongs(bits) <= addr.Length
    modifies addr
    ensures r <==> nr in old(Set(addr, bits))
    ensures Set(addr, bits) == old(Set(addr, bits)) + {nr}
    ensures before == |old(Set(addr, bits))| && after == before + 1 - BitOf(r)
  {
    WordOfBitBelow(nr, bits);
    SetOfArray(addr, bits);
    ghost var x := Value(addr[..]);
    before := Weight(addr, bits);
    r := TestAndSetBit(nr, addr);
    SetOfArray(addr, bits);
    MembersAfterSet(x, nr, bits);
    after := Weight(addr, bits);
  }
}
