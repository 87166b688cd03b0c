/** Natural numbers seen as finite sets of bit positions. */
module Bits {

  // ---------------------------------------------------------------------------
  // Powers of two
  // ---------------------------------------------------------------------------

  function Pow2(n: nat): (p: nat)
    ensures p > 0
  {
    if n == 0 then 1 else 2 * Pow2(n - 1)
  }

  lemma {:induction false} Pow2Add(m: nat, n: nat)
    ensures Pow2(m + n) == Pow2(m) * Pow2(n)
  {
    if m > 0 {
      Pow2Add(m - 1, n);
      MulAssoc(2, Pow2(m - 1), Pow2(n));
    }
  }

  // Powers of two whose values are known, multiplied.
  lemma Pow2Product(m: nat, n: nat, p: nat, q: nat)
    requires Pow2(m) == p && Pow2(n) == q
    ensures Pow2(m + n) == p * q
  {
    Pow2Add(m, n);
  }

  // The power k = m + n, when the one for m is known.
  lemma Pow2Above(m: nat, n: nat, k: nat, p: nat)
    requires Pow2(m) == p && k == m + n
    ensures Pow2(k) == p * Pow2(n)
  {
    Pow2Add(m, n);
  }

  lemma {:induction false} Pow2Mono(m: nat, n: nat)
    requires m <= n
    ensures Pow2(m) <= Pow2(n)
  {
    if m < n {
      Pow2Mono(m, n - 1);
    }
  }

  lemma MulAssoc(a: int, b: int, c: int)
    ensures a * b * c == a * (b * c)
  {
  }

  lemma MulDistrib(a: int, b: int, c: int)
    ensures a * (b + c) == a * b + a * c
  {
  }

  lemma MulMono(a: nat, b: nat, c: nat)
    requires a <= b
    ensures c * a <= c * b
  {
  }

  lemma DivMod(x: nat, p: nat)
    requires p > 0
    ensures x == p * (x / p) + x % p
  {
  }

  lemma QuotientBound(p: nat, q: nat, r: nat, q': nat, r': nat)
    requires r < p && r' < p
    requires p * q + r == p * q' + r'
    ensures q <= q'
  {
    MulDistrib(p, q', 1);
    if q' < q {
      MulMono(q' + 1, q, p);
    }
  }

  lemma DivModUnique(x: nat, p: nat, q: nat, r: nat)
    requires r < p
    requires x == p * q + r
    ensures x / p == q && x % p == r
  {
    DivMod(x, p);
    DivNonneg(x, p);
    QuotientBound(p, q, r, x / p, x % p);
    QuotientBound(p, x / p, x % p, q, r);
  }

  lemma NoWrap(x: nat, range: nat)
    requires x < range
    ensures x % range == x
  {
    DivModUnique(x, range, 0, x);
  }

  // Dividing twice is dividing by the product.
  lemma DivDiv(x: nat, p: nat, q: nat)
    requires p > 0 && q > 0
    ensures p * q > 0 && x / (p * q) == x / p / q && x % (p * q) == x % p + p * (x / p % q)
  {
    DivNonneg(x, p);
    var h: nat, r: nat := x / p, x % p;
    DivNonneg(h, q);
    var h': nat, r': nat := h / q, h % q;
    DivMod(x, p);
    DivMod(h, q);
    MulMono(1, q, p);
    Regrouped(x, p, q, h', r', r);
    DivModUnique(x, p * q, h', r + p * r');
  }

  lemma Regrouped(x: nat, p: nat, q: nat, h: nat, r': nat, r: nat)
    requires x == p * (q * h + r') + r && r < p && r' < q
    ensures 0 <= p * r' && x == p * q * h + (r + p * r') && r + p * r' < p * q
  {
    MulDistrib(p, q * h, r');
    MulAssoc(p, q, h);
    MulMono(r' + 1, q, p);
    MulDistrib(p, r', 1);
    MulMono(0, r', p);
  }

  // y placed above the n low bits that hold x.
  function Join(x: nat, y: nat, n: nat): nat {
    MulMono(0, y, Pow2(n));
    x + Pow2(n) * y
  }

  // x moved up by n bits.
  function Scale(x: nat, n: nat): nat {
    MulMono(0, x, Pow2(n));
    x * Pow2(n)
  }

  lemma JoinAssoc(x: nat, y: nat, z: nat, m: nat, n: nat)
    ensures Join(x, Join(y, z, n), m) == Join(Join(x, y, m), z, m + n)
  {
    Pow2Add(m, n);
    MulAssoc(Pow2(m), Pow2(n), z);
    MulDistrib(Pow2(m), y, Pow2(n) * z);
  }

  lemma HalveJoin(x: nat, y: nat, n: nat)
    requires n > 0
    ensures Join(x, y, n) / 2 == Join(x / 2, y, n - 1) && Join(x, y, n) % 2 == x % 2
  {
    MulAssoc(2, Pow2(n - 1), y);
  }

  // x without its low n bits.
  function High(x: nat, n: nat): nat {
    DivNonneg(x, Pow2(n));
    x / Pow2(n)
  }

  lemma JoinBound(x: nat, y: nat, m: nat, n: nat)
    requires x < Pow2(m) && y < Pow2(n)
    ensures Join(x, y, m) < Pow2(m + n)
  {
    Pow2Add(m, n);
    MulMono(y + 1, Pow2(n), Pow2(m));
    MulDistrib(Pow2(m), y, 1);
  }

  // Moving up is putting zeros below.
  lemma ScaleIsJoin(x: nat, n: nat)
    ensures Scale(x, n) == Join(0, x, n)
  {
  }

  lemma LowAndHigh(x: nat, n: nat)
    ensures x == Join(x % Pow2(n), High(x, n), n)
  {
    DivMod(x, Pow2(n));
  }

  lemma HighSmall(x: nat, m: nat, n: nat)
    requires x < Pow2(m + n)
    ensures High(x, m) < Pow2(n)
  {
    Pow2Add(m, n);
    LowAndHigh(x, m);
    if High(x, m) >= Pow2(n) {
      MulMono(Pow2(n), High(x, m), Pow2(m));
    }
  }

  lemma DivNonneg(x: nat, p: nat)
    requires p > 0
    ensures x / p >= 0
  {
  }

  // Dividing by, and reducing modulo, a power of two one bit at a time.
  lemma Halve(x: nat, n: nat)
    requires n > 0
    ensures High(x, n) == High(x / 2, n - 1)
    ensures x % Pow2(n) == x % 2 + 2 * (x / 2 % Pow2(n - 1))
  {
    var p := Pow2(n - 1);
    var q, r := x / 2 / p, x / 2 % p;
    assert x / 2 == p * q + r;
    assert Pow2(n) * q == 2 * (p * q) by { MulAssoc(2, p, q); }
    DivModUnique(x, Pow2(n), q, x % 2 + 2 * r);
  }

  lemma {:induction false} HighHigh(x: nat, m: nat, n: nat)
    ensures High(High(x, m), n) == High(x, m + n)
    decreases m
  {
    if m > 0 {
      Halve(x, m);
      Halve(x, m + n);
      HighHigh(x / 2, m - 1, n);
    }
  }

  // ---------------------------------------------------------------------------
  // Bits
  // ---------------------------------------------------------------------------

  // Whether bit i of x is 1.
  predicate Bit(x: nat, i: nat)
    decreases i
  {
    if i == 0 then x % 2 == 1 else Bit(x / 2, i - 1)
  }

  function BitOf(b: bool): nat {
    if b then 1 else 0
  }

  lemma {:induction false} BitZero(i: nat)
    ensures !Bit(0, i)
  {
    if i > 0 {
      BitZero(i - 1);
    }
  }

  lemma {:induction false} BitDiv(x: nat, n: nat, i: nat)
    ensures Bit(High(x, n), i) == Bit(x, n + i)
    decreases n
  {
    if n > 0 {
      Halve(x, n);
      BitDiv(x / 2, n - 1, i);
    }
  }

  lemma HalfOf(x: nat, b: nat, y: nat)
    requires b < 2 && x == b + 2 * y
    ensures x / 2 == y && x % 2 == b
  {
  }

  lemma {:induction false} BitMod(x: nat, n: nat, i: nat)
    ensures Bit(x % Pow2(n), i) == (i < n && Bit(x, i))
    decreases n
  {
    if n == 0 {
      BitZero(i);
    } else {
      Halve(x, n);
      var y: nat := x / 2 % Pow2(n - 1);
      HalfOf(x % Pow2(n), x % 2, y);
      if i > 0 {
        BitMod(x / 2, n - 1, i - 1);
      }
    }
  }

  lemma {:induction false} BitMul(x: nat, n: nat, i: nat)
    ensures Bit(Scale(x, n), i) == (i >= n && Bit(x, i - n))
    decreases n
  {
    if n > 0 {
      var y := Scale(x, n - 1);
      assert Scale(x, n) == 2 * y;
      if i > 0 {
        BitMul(x, n - 1, i - 1);
      }
    }
  }

  lemma BitSmall(x: nat, n: nat, i: nat)
    requires x < Pow2(n) && i >= n
    ensures !Bit(x, i)
  {
    NoWrap(x, Pow2(n));
    BitMod(x, n, i);
  }

  lemma BitJoin(x: nat, y: nat, n: nat, i: nat)
    requires x < Pow2(n)
    ensures Bit(Join(x, y, n), i) == if i < n then Bit(x, i) else Bit(y, i - n)
  {
    var z := Join(x, y, n);
    DivModUnique(z, Pow2(n), y, x);
    if i < n {
      BitMod(z, n, i);
    } else {
      BitDiv(z, n, i - n);
    }
  }

  // A number is determined by its bits.
  lemma {:induction false} BitsDetermine(x: nat, y: nat, n: nat)
    requires x < Pow2(n) && y < Pow2(n)
    requires forall i :: 0 <= i < n ==> Bit(x, i) == Bit(y, i)
    ensures x == y
    decreases n
  {
    if n > 0 {
      assert Bit(x, 0) == Bit(y, 0);
      forall i | 0 <= i < n - 1
        ensures Bit(x / 2, i) == Bit(y / 2, i)
      {
        assert Bit(x, i + 1) == Bit(y, i + 1);
      }
      BitsDetermine(x / 2, y / 2, n - 1);
    }
  }

  lemma LowDetermined(x: nat, y: nat, n: nat)
    requires y < Pow2(n)
    requires forall i :: 0 <= i < n ==> Bit(y, i) == Bit(x, i)
    ensures x % Pow2(n) == y
  {
    forall i | 0 <= i < n
      ensures Bit(x % Pow2(n), i) == Bit(y, i)
    {
      BitMod(x, n, i);
    }
    BitsDetermine(x % Pow2(n), y, n);
  }

  // ---------------------------------------------------------------------------
  // Bitwise operations
  // ---------------------------------------------------------------------------

  datatype Gate = AND | OR | XOR | ANDNOT {
    predicate Out(a: bool, b: bool) {
      match this
      case AND => a && b
      case OR => a || b
      case XOR => a != b
      case ANDNOT => a && !b
    }
  }

  function Bitwise(g: Gate, x: nat, y: nat): nat
    decreases x + y
  {
    if x == 0 && y == 0 then 0
    else BitOf(g.Out(x % 2 == 1, y % 2 == 1)) + 2 * Bitwise(g, x / 2, y / 2)
  }

  lemma {:induction false} BitBitwise(g: Gate, x: nat, y: nat, i: nat)
    ensures Bit(Bitwise(g, x, y), i) == g.Out(Bit(x, i), Bit(y, i))
    decreases i
  {
    var z := Bitwise(g, x / 2, y / 2);
    assert Bitwise(g, x, y) == BitOf(g.Out(x % 2 == 1, y % 2 == 1)) + 2 * z;
    assert Bitwise(g, x, y) / 2 == z;
    if i > 0 {
      BitBitwise(g, x / 2, y / 2, i - 1);
    }
  }

  lemma {:induction false} BitwiseBound(g: Gate, x: nat, y: nat, n: nat)
    requires x < Pow2(n) && y < Pow2(n)
    ensures Bitwise(g, x, y) < Pow2(n)
    decreases n
  {
    if n > 0 {
      BitwiseBound(g, x / 2, y / 2, n - 1);
    }
  }

  // Bitwise operations act on the two halves of a split number separately.
  lemma {:induction false} BitwiseJoin(g: Gate, x: nat, x': nat, y: nat, y': nat, n: nat)
    requires x < Pow2(n) && y < Pow2(n)
    ensures Bitwise(g, Join(x, x', n), Join(y, y', n)) == Join(Bitwise(g, x, y), Bitwise(g, x', y'), n)
    decreases n
  {
    if n > 0 {
      HalveJoin(x, x', n);
      HalveJoin(y, y', n);
      BitwiseJoin(g, x / 2, x', y / 2, y', n - 1);
      BitwiseStep(g, x, y);
      BitwiseStep(g, Join(x, x', n), Join(y, y', n));
      JoinOfDouble(BitOf(g.Out(x % 2 == 1, y % 2 == 1)), Bitwise(g, x / 2, y / 2), Bitwise(g, x', y'), n);
    }
  }

  lemma BitwiseStep(g: Gate, x: nat, y: nat)
    ensures Bitwise(g, x, y) == BitOf(g.Out(x % 2 == 1, y % 2 == 1)) + 2 * Bitwise(g, x / 2, y / 2)
  {
  }

  lemma JoinOfDouble(b: nat, x: nat, y: nat, n: nat)
    requires n > 0
    ensures Join(b + 2 * x, y, n) == b + 2 * Join(x, y, n - 1)
  {
    MulAssoc(2, Pow2(n - 1), y);
  }

  lemma {:induction false} BitwiseZero(g: Gate, x: nat)
    ensures Bitwise(g, x, 0) == if g.AND? then 0 else x
    ensures Bitwise(g, 0, x) == if g.AND? || g.ANDNOT? then 0 else x
  {
    if x > 0 {
      BitwiseZero(g, x / 2);
    }
  }

  // `2^n - 1 - x` complements the low n bits of x.
  lemma {:induction false} BitComplement(x: nat, n: nat, i: nat)
    requires x < Pow2(n)
    ensures Bit(Pow2(n) - 1 - x, i) == (i < n && !Bit(x, i))
    decreases n
  {
    if n == 0 {
      BitZero(i);
    } else {
      var y := Pow2(n) - 1 - x;
      assert y / 2 == Pow2(n - 1) - 1 - x / 2 && y % 2 == 1 - x % 2;
      if i > 0 {
        BitComplement(x / 2, n - 1, i - 1);
      }
    }
  }

  lemma BitOnes(n: nat, i: nat)
    ensures Bit(Pow2(n) - 1, i) == (i < n)
  {
    BitComplement(0, n, i);
    BitZero(i);
  }

  lemma {:induction false} AndBound(x: nat, y: nat, n: nat)
    requires y < Pow2(n)
    ensures Bitwise(AND, x, y) < Pow2(n)
    decreases n
  {
    if n == 0 {
      BitwiseZero(AND, x);
    } else {
      AndBound(x / 2, y / 2, n - 1);
      BitwiseStep(AND, x, y);
    }
  }

  // `x & (2^n - 1)` keeps the low n bits of x.
  lemma AndMask(x: nat, n: nat)
    ensures Bitwise(AND, x, Pow2(n) - 1) == x % Pow2(n)
  {
    var ones: nat := Pow2(n) - 1;
    AndBound(x, ones, n);
    forall i | 0 <= i < n
      ensures Bit(Bitwise(AND, x, ones), i) == Bit(x, i)
    {
      BitBitwise(AND, x, ones, i);
      BitOnes(n, i);
    }
    LowDetermined(x, Bitwise(AND, x, ones), n);
  }

  // The bits of x that y has and those that y lacks make up x.
  lemma {:induction false} SplitByMask(x: nat, y: nat)
    ensures Bitwise(AND, x, y) + Bitwise(ANDNOT, x, y) == x
    decreases x + y
  {
    if x + y > 0 {
      SplitByMask(x / 2, y / 2);
      BitwiseStep(AND, x, y);
      BitwiseStep(ANDNOT, x, y);
    }
  }

  // `x & ~(2^n - 1)` clears them.
  lemma ClearLow(x: nat, n: nat)
    ensures Bitwise(ANDNOT, x, Pow2(n) - 1) == x - x % Pow2(n)
  {
    SplitByMask(x, Pow2(n) - 1);
    AndMask(x, n);
  }

  // The complement of the low n bits of x.
  function Complemented(x: nat, n: nat): nat {
    Pow2(n) - 1 - x % Pow2(n)
  }

  lemma BitComplemented(x: nat, n: nat, i: nat)
    ensures Bit(Complemented(x, n), i) == (i < n && !Bit(x, i))
  {
    BitComplement(x % Pow2(n), n, i);
    BitMod(x, n, i);
  }

  // ---------------------------------------------------------------------------
  // Number of bits, position of the highest bit
  // ---------------------------------------------------------------------------

  // How many bits of x are 1.
  function Count(x: nat): nat {
    if x == 0 then 0 else x % 2 + Count(x / 2)
  }

  lemma {:induction false} CountJoin(x: nat, y: nat, n: nat)
    requires x < Pow2(n)
    ensures Count(Join(x, y, n)) == Count(x) + Count(y)
    decreases n
  {
    if n > 0 {
      HalveJoin(x, y, n);
      CountJoin(x / 2, y, n - 1);
      CountStep(Join(x, y, n));
      CountStep(x);
    }
  }

  lemma CountStep(x: nat)
    ensures Count(x) == x % 2 + Count(x / 2)
  {
  }

  // The length of x in binary: 0 for 0.
  function BitLength(x: nat): nat {
    if x == 0 then 0 else 1 + BitLength(x / 2)
  }

  lemma {:induction false} BitLengthBounds(x: nat)
    ensures x < Pow2(BitLength(x))
    ensures x > 0 ==> BitLength(x) > 0 && Pow2(BitLength(x) - 1) <= x
  {
    if x > 0 {
      BitLengthBounds(x / 2);
    }
  }

  lemma {:induction false} BitLengthIff(x: nat, n: nat)
    ensures BitLength(x) <= n <==> x < Pow2(n)
  {
    BitLengthBounds(x);
    if BitLength(x) <= n {
      Pow2Mono(BitLength(x), n);
    } else {
      Pow2Mono(n, BitLength(x) - 1);
    }
  }

  lemma {:induction false} BitLengthJoin(x: nat, y: nat, n: nat)
    requires x < Pow2(n) && y > 0
    ensures BitLength(Join(x, y, n)) == n + BitLength(y)
    decreases n
  {
    if n > 0 {
      HalveJoin(x, y, n);
      BitLengthJoin(x / 2, y, n - 1);
      MulMono(1, y, Pow2(n));
    }
  }

  // ---------------------------------------------------------------------------
  // The set view
  // ---------------------------------------------------------------------------

  // The positions below n at which x has a 1.
  function Members(x: nat, n: nat): set<nat> {
    set i | 0 <= i < n && Bit(x, i)
  }

  lemma MembersDetermine(x: nat, y: nat, n: nat)
    ensures Members(x, n) == Members(y, n) <==> x % Pow2(n) == y % Pow2(n)
  {
    if Members(x, n) == Members(y, n) {
      forall i | 0 <= i < n
        ensures Bit(x % Pow2(n), i) == Bit(y % Pow2(n), i)
      {
        BitMod(x, n, i);
        BitMod(y, n, i);
        assert i in Members(x, n) <==> i in Members(y, n);
      }
      BitsDetermine(x % Pow2(n), y % Pow2(n), n);
    } else if x % Pow2(n) == y % Pow2(n) {
      forall i | 0 <= i < n
        ensures Bit(x, i) == Bit(y, i)
      {
        BitMod(x, n, i);
        BitMod(y, n, i);
      }
    }
  }

  // Counting ones is counting members.
  lemma {:induction false} CountMembers(x: nat, n: nat)
    ensures Count(x % Pow2(n)) == |Members(x, n)|
  {
    if n == 0 {
      assert Members(x, 0) == {};
    } else {
      CountMembers(x, n - 1);
      LowStep(x, n - 1);
      CountJoin(x % Pow2(n - 1), BitOf(Bit(x, n - 1)), n - 1);
      MembersStep(x, n - 1);
    }
  }

  lemma MembersStep(x: nat, n: nat)
    ensures |Members(x, n + 1)| == |Members(x, n)| + Count(BitOf(Bit(x, n)))
  {
    assert Members(x, n + 1) == Members(x, n) + if Bit(x, n) then {n} else {};
  }

  lemma LowStep(x: nat, n: nat)
    ensures x % Pow2(n + 1) == Join(x % Pow2(n), BitOf(Bit(x, n)), n)
  {
    var low: nat, y: nat := x % Pow2(n), Join(x % Pow2(n), BitOf(Bit(x, n)), n);
    forall i | 0 <= i < n + 1
      ensures Bit(y, i) == Bit(x, i)
    {
      BitJoin(low, BitOf(Bit(x, n)), n, i);
      BitMod(x, n, i);
    }
    LowDetermined(x, y, n + 1);
  }
}
