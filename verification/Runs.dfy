/** Whole runs: any sequence of bitmap operations on a pool of bitmaps, against plain sets. */
module Runs {
  import opened Bits
  import opened Words
  import opened Bitmap
  import opened Shifts
  import opened Inlines
  import opened Parser
  import opened Hex
  import BitOps

  // One call of the library; bitmaps are named by their place in the pool, and may coincide.
  datatype Op =
    | Zero(dst: nat)
    | Fill(dst: nat)
    | Copy(dst: nat, src: nat)
    | Binary(gate: Gate, dst: nat, src1: nat, src2: nat)
    | Complement(dst: nat, src: nat)
    | Left(dst: nat, src: nat, shift: nat)
    | Right(dst: nat, src: nat, shift: nat)
    | Set(dst: nat, nr: nat)
    | Clear(dst: nat, nr: nat)
    | Change(dst: nat, nr: nat)
    | Read(dst: nat, text: string)

  // A call that the library is defined for, on `count` bitmaps of n bits.
  predicate Defined(op: Op, count: nat, n: nat) {
    op.dst < count &&
    match op
    case Zero(_) => true
    case Fill(_) => true
    case Copy(_, src) => src < count
    case Binary(_, _, src1, src2) => src1 < count && src2 < count
    case Complement(_, src) => src < count
    case Left(_, src, shift) => src < count && ShiftAllowed(shift, n)
    case Right(_, src, shift) => src < count && ShiftAllowed(shift, n)
    case Set(_, nr) => nr < n
    case Clear(_, nr) => nr < n
    case Change(_, nr) => nr < n
    case Read(_, _) => true
  }

  // A text that does not fit stops a run; after any other error the bitmap is what had been read before it.
  predicate Overflows(op: Op, n: nat) {
    op.Read? && Parsed(op.text, n).Overflow?
  }

  // ---------------------------------------------------------------------------
  // What a call means for sets
  // ---------------------------------------------------------------------------

  function Combine(g: Gate, a: set<nat>, b: set<nat>): set<nat> {
    match g
    case AND => a * b
    case OR => a + b
    case XOR => (a - b) + (b - a)
    case ANDNOT => a - b
  }

  function MovedUp(a: set<nat>, shift: nat, n: nat): set<nat> {
    set j | j in UpTo(n) && j >= shift && j - shift in a
  }

  function MovedDown(a: set<nat>, shift: nat, n: nat): set<nat> {
    set j | j in UpTo(n) && shift + j in a
  }

  function NewSet(op: Op, sets: seq<set<nat>>, n: nat): set<nat>
    requires Defined(op, |sets|, n) && !Overflows(op, n)
  {
    match op
    case Zero(_) => {}
    case Fill(_) => UpTo(n)
    case Copy(_, src) => sets[src]
    case Binary(g, _, src1, src2) => Combine(g, sets[src1], sets[src2])
    case Complement(_, src) => UpTo(n) - sets[src]
    case Left(_, src, shift) => MovedUp(sets[src], shift, n)
    case Right(_, src, shift) => MovedDown(sets[src], shift, n)
    case Set(dst, nr) => sets[dst] + {nr}
    case Clear(dst, nr) => sets[dst] - {nr}
    case Change(dst, nr) => if nr in sets[dst] then sets[dst] - {nr} else sets[dst] + {nr}
    case Read(_, text) => Members(Parsed(text, n).value, n)
  }

  // The sets after a run in which no text overflows.
  function SetsAfter(ops: seq<Op>, sets: seq<set<nat>>, n: nat): (r: seq<set<nat>>)
    requires forall i :: 0 <= i < |ops| ==> Defined(ops[i], |sets|, n) && !Overflows(ops[i], n)
    ensures |r| == |sets|
  {
    if ops == [] then sets
    else
      var init, op := ops[..|ops| - 1], ops[|ops| - 1];
      assert Defined(op, |sets|, n);
      var before := SetsAfter(init, sets, n);
      before[op.dst := NewSet(op, before, n)]
  }

  // ---------------------------------------------------------------------------
  // What a call means for numbers
  // ---------------------------------------------------------------------------

  function NewNumber(op: Op, numbers: seq<nat>, n: nat): nat
    requires Defined(op, |numbers|, n) && !Overflows(op, n)
  {
    match op
    case Zero(_) => 0
    case Fill(_) => Pow2(n) - 1
    case Copy(_, src) => numbers[src]
    case Binary(g, _, src1, src2) => Bitwise(g, numbers[src1], numbers[src2])
    case Complement(_, src) => Complemented(numbers[src], n)
    case Left(_, src, shift) => ShiftedLeft(numbers[src], shift, n)
    case Right(_, src, shift) => ShiftedRight(numbers[src], shift, n)
    case Set(dst, nr) => Bitwise(OR, numbers[dst], Pow2(nr))
    case Clear(dst, nr) => Bitwise(ANDNOT, numbers[dst], Pow2(nr))
    case Change(dst, nr) => Bitwise(XOR, numbers[dst], Pow2(nr))
    case Read(_, text) => Parsed(text, n).value
  }

  lemma MembersCombined(g: Gate, x: nat, y: nat, n: nat)
    ensures Members(Bitwise(g, x, y), n) == Combine(g, Members(x, n), Members(y, n))
  {
    MembersBitwise(g, x, y, n);
  }

  lemma MembersComplemented(x: nat, n: nat)
    ensures Members(Complemented(x, n), n) == UpTo(n) - Members(x, n)
  {
    forall i | 0 <= i < n
      ensures i in Members(Complemented(x, n), n) <==> i !in Members(x, n)
    {
      BitComplemented(x, n, i);
    }
  }

  lemma MembersMoved(x: nat, shift: nat, n: nat)
    ensures Members(ShiftedLeft(x, shift, n), n) == MovedUp(Members(x, n), shift, n)
    ensures Members(ShiftedRight(x, shift, n), n) == MovedDown(Members(x, n), shift, n)
  {
    MembersShiftedLeft(x, shift, n);
    MembersShiftedRight(x, shift, n);
  }

  lemma MembersUpdated(x: nat, nr: nat, n: nat)
    requires nr < n && x < Pow2(n)
    ensures Pow2(nr) < Pow2(n)
    ensures Members(Bitwise(OR, x, Pow2(nr)), n) == Members(x, n) + {nr}
    ensures Members(Bitwise(ANDNOT, x, Pow2(nr)), n) == Members(x, n) - {nr}
    ensures Members(Bitwise(XOR, x, Pow2(nr)), n) ==
            if nr in Members(x, n) then Members(x, n) - {nr} else Members(x, n) + {nr}
  {
    Pow2Mono(nr + 1, n);
    BitOps.MembersAfterSet(x, nr, n);
    BitOps.MembersAfterClear(x, nr, n);
    BitOps.MembersAfterChange(x, nr, n);
  }

  // What the numbers of a pool of clean bitmaps have to do with the sets.
  ghost predicate Stand(numbers: seq<nat>, sets: seq<set<nat>>, n: nat) {
    |numbers| == |sets| &&
    forall i :: 0 <= i < |sets| ==> numbers[i] < Pow2(n) && Members(numbers[i], n) == sets[i]
  }

  lemma ConstantStands(op: Op, numbers: seq<nat>, sets: seq<set<nat>>, n: nat)
    requires Stand(numbers, sets, n) && Defined(op, |sets|, n) && (op.Zero? || op.Fill? || op.Copy?)
    ensures NewNumber(op, numbers, n) < Pow2(n)
    ensures Members(NewNumber(op, numbers, n), n) == NewSet(op, sets, n)
  {
    match op
    case Zero(_) => MembersOfZero(n);
    case Fill(_) => MembersOfOnes(n, n);
    case Copy(_, _) =>
  }

  lemma CombinationStands(op: Op, numbers: seq<nat>, sets: seq<set<nat>>, n: nat)
    requires Stand(numbers, sets, n) && Defined(op, |sets|, n) && (op.Binary? || op.Complement?)
    ensures NewNumber(op, numbers, n) < Pow2(n)
    ensures Members(NewNumber(op, numbers, n), n) == NewSet(op, sets, n)
  {
    match op
    case Binary(g, _, src1, src2) =>
      BitwiseBound(g, numbers[src1], numbers[src2], n);
      MembersCombined(g, numbers[src1], numbers[src2], n);
    case Complement(_, src) => MembersComplemented(numbers[src], n);
  }

  lemma ShiftStands(op: Op, numbers: seq<nat>, sets: seq<set<nat>>, n: nat)
    requires Stand(numbers, sets, n) && Defined(op, |sets|, n) && (op.Left? || op.Right?)
    ensures NewNumber(op, numbers, n) < Pow2(n)
    ensures Members(NewNumber(op, numbers, n), n) == NewSet(op, sets, n)
  {
    ShiftedBounds(numbers[op.src], op.shift, n);
    MembersMoved(numbers[op.src], op.shift, n);
  }

  lemma UpdateStands(op: Op, numbers: seq<nat>, sets: seq<set<nat>>, n: nat)
    requires Stand(numbers, sets, n) && Defined(op, |sets|, n) && (op.Set? || op.Clear? || op.Change?)
    ensures NewNumber(op, numbers, n) < Pow2(n)
    ensures Members(NewNumber(op, numbers, n), n) == NewSet(op, sets, n)
  {
    var x: nat, nr: nat := numbers[op.dst], op.nr;
    MembersUpdated(x, nr, n);
    BitwiseBound(if op.Set? then OR else if op.Clear? then ANDNOT else XOR, x, Pow2(nr), n);
  }

  // On clean bitmaps, the number that a call leaves is clean and stands for the set it should.
  lemma NumberStandsForSet(op: Op, numbers: seq<nat>, sets: seq<set<nat>>, n: nat)
    requires Stand(numbers, sets, n) && Defined(op, |sets|, n) && !Overflows(op, n)
    ensures NewNumber(op, numbers, n) < Pow2(n)
    ensures Members(NewNumber(op, numbers, n), n) == NewSet(op, sets, n)
  {
    if op.Zero? || op.Fill? || op.Copy? {
      ConstantStands(op, numbers, sets, n);
    } else if op.Binary? || op.Complement? {
      CombinationStands(op, numbers, sets, n);
    } else if op.Left? || op.Right? {
      ShiftStands(op, numbers, sets, n);
    } else if op.Read? {
      ParsedFits(op.text, n);
    } else {
      UpdateStands(op, numbers, sets, n);
    }
  }

  lemma {:induction false} ScanFits(t: string, n: nat, prev: char, started: bool, digits: bool, group: nat, value: nat)
    requires value < Pow2(n)
    ensures var end := Scan(t, n, prev, started, digits, group, value);
            !end.Overflow? ==> end.value < Pow2(n)
    decreases |t|
  {
    if t != "" {
      var c := t[0];
      if IsSpace(c) {
        ScanFits(t[1..], n, c, started, digits, group, value);
      } else if c == ',' {
        var end := EndOfGroup(n, digits, group, value);
        if end.Accepted? {
          ScanFits(t[1..], n, c, started, false, 0, end.value);
        }
      } else if IsXDigit(c) {
        ScanFits(t[1..], n, c, true, true, 16 * group + Unhex(c), value);
      }
    }
  }

  lemma ParsedFits(text: string, n: nat)
    ensures !Parsed(text, n).Overflow? ==> Parsed(text, n).value < Pow2(n)
  {
    ScanFits(text, n, Hex.NUL, false, false, 0, 0);
  }

  // ---------------------------------------------------------------------------
  // The calls themselves
  // ---------------------------------------------------------------------------

  // Distinct bitmaps, each in an array of exactly the words it needs.
  ghost predicate Pool(masks: seq<array<Word>>, n: nat) {
    0 < n &&
    (forall i :: 0 <= i < |masks| ==> masks[i].Length == BitsToLongs(n)) &&
    (forall i, j :: 0 <= i < j < |masks| ==> masks[i] != masks[j])
  }

  // The bitmap is clean and holds the given set.
  ghost predicate Holds(mask: array<Word>, s: set<nat>, n: nat)
    requires BitsToLongs(n) <= mask.Length
    reads mask
  {
    Clean(mask, n) && Bitmap.Set(mask, n) == s
  }

  // The bitmaps are clean and hold the given sets.
  ghost predicate Represents(masks: seq<array<Word>>, sets: seq<set<nat>>, n: nat)
    requires Pool(masks, n)
    reads masks
  {
    |masks| == |sets| && forall i :: 0 <= i < |masks| ==> Holds(masks[i], sets[i], n)
  }

  lemma WholeArray(a: array<Word>, n: nat)
    requires a.Length == BitsToLongs(n)
    ensures Number(a, n) == Value(a[..])
  {
    assert a[..] == a[..BitsToLongs(n)];
  }

  // A word-level call on the destination, given the numbers that the bitmaps hold.
  method Perform(op: Op, masks: seq<array<Word>>, n: nat, ghost numbers: seq<nat>) returns (ok: bool)
    requires Pool(masks, n) && Defined(op, |masks|, n)
    requires |numbers| == |masks|
    requires forall i :: 0 <= i < |masks| ==> Number(masks[i], n) == numbers[i] < Pow2(n)
    modifies masks[op.dst]
    ensures ok <==> !Overflows(op, n)
    ensures ok ==> Number(masks[op.dst], n) == NewNumber(op, numbers, n)
  {
    var dst := masks[op.dst];
    ok := true;
    match op
    case Zero(_) => BitmapZero(dst, n);
    case Fill(_) => BitmapFill(dst, n);
    case Copy(_, src) => BitmapCopy(dst, masks[src], n);
    case Binary(g, _, src1, src2) => PerformBinary(g, dst, masks[src1], masks[src2], n);
    case Complement(_, src) => BitmapComplement(dst, masks[src], n);
    case Left(_, src, shift) => BitmapShiftLeft(dst, masks[src], shift, n);
    case Right(_, src, shift) => BitmapShiftRight(dst, masks[src], shift, n);
    case Set(_, nr) => WholeArray(dst, n); BitOps.SetBit(nr, dst); WholeArray(dst, n);
    case Clear(_, nr) => WholeArray(dst, n); BitOps.ClearBit(nr, dst); WholeArray(dst, n);
    case Change(_, nr) => WholeArray(dst, n); BitOps.ChangeBit(nr, dst); WholeArray(dst, n);
    case Read(_, text) => ok := PerformRead(text, dst, n);
  }

  method PerformBinary(g: Gate, dst: array<Word>, src1: array<Word>, src2: array<Word>, n: nat)
    requires Fits(dst, n) && Fits(src1, n) && Fits(src2, n)
    modifies dst
    ensures Number(dst, n) == Bitwise(g, old(Number(src1, n)), old(Number(src2, n)))
  {
    match g
    case AND => BitmapAnd(dst, src1, src2, n);
    case OR => BitmapOr(dst, src1, src2, n);
    case XOR => BitmapXor(dst, src1, src2, n);
    case ANDNOT => BitmapAndNot(dst, src1, src2, n);
  }

  method PerformRead(text: string, dst: array<Word>, n: nat) returns (ok: bool)
    requires Fits(dst, n)
    modifies dst
    ensures ok <==> !Parsed(text, n).Overflow?
    ensures ok ==> Number(dst, n) == Parsed(text, n).value
  {
    var buf := new char[|text|](i requires 0 <= i < |text| => text[i]);
    assert buf[..|text|] == text;
    var status := Parse(buf, |text|, dst, n);
    ok := status != EOVERFLOW;
  }

  ghost function NumbersOf(masks: seq<array<Word>>, n: nat): (r: seq<nat>)
    requires Pool(masks, n)
    reads masks
    ensures |r| == |masks| && forall i :: 0 <= i < |r| ==> r[i] == Number(masks[i], n)
  {
    seq(|masks|, i requires 0 <= i < |masks| reads masks => Number(masks[i], n))
  }

  lemma PoolStands(masks: seq<array<Word>>, sets: seq<set<nat>>, n: nat)
    requires Pool(masks, n) && Represents(masks, sets, n)
    ensures Stand(NumbersOf(masks, n), sets, n)
  {
    forall i | 0 <= i < |sets|
      ensures NumbersOf(masks, n)[i] < Pow2(n) && Members(NumbersOf(masks, n)[i], n) == sets[i]
    {
      assert Holds(masks[i], sets[i], n);
    }
  }

  // One step of a run; the other bitmaps keep their sets whatever happens.
  method Step(op: Op, masks: seq<array<Word>>, n: nat, ghost sets: seq<set<nat>>) returns (ok: bool)
    requires Pool(masks, n) && Defined(op, |masks|, n) && Represents(masks, sets, n)
    modifies masks[op.dst]
    ensures ok <==> !Overflows(op, n)
    ensures ok ==> Holds(masks[op.dst], NewSet(op, sets, n), n)
    ensures forall i :: 0 <= i < |masks| && i != op.dst ==> Holds(masks[i], sets[i], n)
  {
    ghost var numbers := NumbersOf(masks, n);
    PoolStands(masks, sets, n);
    ok := Perform(op, masks, n, numbers);
    if ok {
      NumberStandsForSet(op, numbers, sets, n);
    }
  }

  // A pool in which one bitmap holds a new set and the others what they held.
  lemma OneReplaced(masks: seq<array<Word>>, sets: seq<set<nat>>, dst: nat, s: set<nat>, n: nat)
    requires Pool(masks, n) && dst < |masks| == |sets| && Holds(masks[dst], s, n)
    requires forall i :: 0 <= i < |masks| && i != dst ==> Holds(masks[i], sets[i], n)
    ensures Represents(masks, sets[dst := s], n)
  {
    forall i | 0 <= i < |masks|
      ensures Holds(masks[i], sets[dst := s][i], n)
    {
    }
  }

  lemma OneMoreStep(ops: seq<Op>, sets: seq<set<nat>>, n: nat, k: nat)
    requires k < |ops|
    requires forall i :: 0 <= i <= k ==> Defined(ops[i], |sets|, n) && !Overflows(ops[i], n)
    ensures var before := SetsAfter(ops[..k], sets, n);
            SetsAfter(ops[..k + 1], sets, n) == before[ops[k].dst := NewSet(ops[k], before, n)]
  {
    assert ops[..k + 1][..k] == ops[..k];
  }

  // Any run on any pool of clean bitmaps: it stops at the first text that overflows, and otherwise
  // the bitmaps are clean and hold exactly the sets that plain set operations give.
  method Run(ops: seq<Op>, masks: seq<array<Word>>, n: nat, ghost sets: seq<set<nat>>) returns (done: nat)
    requires Pool(masks, n) && Represents(masks, sets, n)
    requires forall i :: 0 <= i < |ops| ==> Defined(ops[i], |masks|, n)
    modifies masks
    ensures done <= |ops|
    ensures forall i :: 0 <= i < done ==> !Overflows(ops[i], n)
    ensures done < |ops| ==> Overflows(ops[done], n)
    ensures done == |ops| ==> Represents(masks, SetsAfter(ops, sets, n), n)
    ensures done < |ops| ==> forall i :: 0 <= i < |masks| && i != ops[done].dst ==>
                               Holds(masks[i], SetsAfter(ops[..done], sets, n)[i], n)
  {
    done := 0;
    ghost var current := sets;
    assert ops[..0] == [];
    while done < |ops|
      invariant done <= |ops|
      invariant forall i :: 0 <= i < done ==> !Overflows(ops[i], n)
      invariant current == SetsAfter(ops[..done], sets, n)
      invariant Represents(masks, current, n)
    {
      var ok := Step(ops[done], masks, n, current);
      if !ok {
        return;
      }
      OneMoreStep(ops, sets, n, done);
      OneReplaced(masks, current, ops[done].dst, NewSet(ops[done], current, n), n);
      current := current[ops[done].dst := NewSet(ops[done], current, n)];
      done := done + 1;
    }
    assert ops[..done] == ops;
  }
}
