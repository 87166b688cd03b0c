/** Weights of combined and shifted bitmaps. */
module Laws {
  import opened Bits
  import opened Bitmap
  import opened Shifts
  import Runs

  // weight(a | b) + weight(a & b) == weight(a) + weight(b)
  lemma WeightOfUnion(x: nat, y: nat, n: nat)
    ensures |Members(Bitwise(OR, x, y), n)| + |Members(Bitwise(AND, x, y), n)| == |Members(x, n)| + |Members(y, n)|
  {
    var a, b := Members(x, n), Members(y, n);
    Runs.MembersCombined(OR, x, y, n);
    Runs.MembersCombined(AND, x, y, n);
    assert a + b == a + (b - a);
    assert b == (b - a) + (a * b);
  }

  // weight(a ^ b) == weight(a & ~b) + weight(b & ~a)
  lemma WeightOfDifference(x: nat, y: nat, n: nat)
    ensures |Members(Bitwise(XOR, x, y), n)| ==
            |Members(Bitwise(ANDNOT, x, y), n)| + |Members(Bitwise(ANDNOT, y, x), n)|
  {
    Runs.MembersCombined(XOR, x, y, n);
    Runs.MembersCombined(ANDNOT, x, y, n);
    Runs.MembersCombined(ANDNOT, y, x, n);
  }

  // weight(~a) == bits - weight(a)
  lemma WeightOfComplement(x: nat, n: nat)
    ensures |Members(Complemented(x, n), n)| == n - |Members(x, n)|
  {
    Runs.MembersComplemented(x, n);
    assert Members(x, n) <= UpTo(n);
    assert UpTo(n) == Members(x, n) + (UpTo(n) - Members(x, n));
  }

  // Shifting left by `shift` and weighing is weighing the low n - shift bits.
  lemma WeightOfShifted(x: nat, shift: nat, n: nat)
    requires shift <= n
    ensures |Members(ShiftedLeft(x, shift, n), n)| == |Members(x, n - shift)|
  {
    var y: nat := ShiftedLeft(x, shift, n);
    var low: nat := x % Pow2(n - shift);
    Pow2Add(shift, n - shift);
    MulMono(low + 1, Pow2(n - shift), Pow2(shift));
    MulDistrib(Pow2(shift), low, 1);
    forall j | 0 <= j < n
      ensures Bit(y, j) == Bit(Join(0, low, shift), j)
    {
      BitShiftedLeft(x, shift, n, j);
      BitJoin(0, low, shift, j);
      BitZero(j);
      if j >= shift {
        BitMod(x, n - shift, j - shift);
      }
    }
    ShiftedBounds(x, shift, n);
    BitsDetermine(y, Join(0, low, shift), n);
    CountJoin(0, low, shift);
    CountMembers(y, n);
    CountMembers(x, n - shift);
    NoWrap(y, Pow2(n));
  }
}
