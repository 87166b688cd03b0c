/** Machine words with C's unsigned arithmetic, and rows of words read as one number. */
module Words {
  import opened Bits

  const ULONG_MAX := 0xFFFF_FFFF_FFFF_FFFF

  // An `unsigned long` of 64 bits.
  type Word = w: nat | w <= ULONG_MAX

  const UINT32_MAX := 0xFFFF_FFFF

  // A `uint32_t`.
  type Uint32 = w: nat | w <= UINT32_MAX

  lemma WordRange()
    ensures Pow2(32) == 0x1_0000_0000
    ensures Pow2(64) == ULONG_MAX + 1
  {
    Pow2Of32();
    Pow2Product(32, 32, 0x1_0000_0000, 0x1_0000_0000);
  }

  lemma Pow2Of32()
    ensures Pow2(32) == 0x1_0000_0000
  {
    Pow2Product(1, 1, 2, 2);
    Pow2Product(2, 2, 4, 4);
    Pow2Product(4, 4, 16, 16);
    Pow2Product(8, 8, 0x100, 0x100);
    Pow2Product(16, 16, 0x1_0000, 0x1_0000);
  }

  // ---------------------------------------------------------------------------
  // C operators
  // ---------------------------------------------------------------------------

  function And(x: Word, y: Word): Word {
    WordRange(); BitwiseBound(AND, x, y, 64);
    Bitwise(AND, x, y)
  }

  function Or(x: Word, y: Word): Word {
    WordRange(); BitwiseBound(OR, x, y, 64);
    Bitwise(OR, x, y)
  }

  function Xor(x: Word, y: Word): Word {
    WordRange(); BitwiseBound(XOR, x, y, 64);
    Bitwise(XOR, x, y)
  }

  function Not(x: Word): Word {
    ULONG_MAX - x
  }

  // A shift by the whole width gives 0.
  function Shl(x: Word, s: nat): Word {
    WordRange();
    Scale(x, s) % Pow2(64)
  }

  function Shr(x: Word, s: nat): Word {
    HighBound(x, s);
    High(x, s)
  }

  lemma HighBound(x: nat, s: nat)
    ensures High(x, s) <= x
  {
    MulMono(1, Pow2(s), High(x, s));
  }

  function BitsToLongs(bits: nat): nat {
    (bits + 63) / 64
  }

  lemma BitsInWords(bits: nat)
    ensures bits <= 64 * BitsToLongs(bits) < bits + 64
  {
    DivMod(bits + 63, 64);
  }

  // BITMAP_LAST_WORD_MASK.
  function LastWordMask(bits: nat): Word {
    if bits % 64 != 0 then LowMask(bits % 64) else ULONG_MAX
  }

  // `(1UL << left) - 1`.
  function LowMask(left: nat): Word
    requires left < 64
  {
    ShlOne(left);
    Shl(1, left) - 1
  }

  lemma ShlOne(s: nat)
    requires s < 64
    ensures Shl(1, s) == Pow2(s)
  {
    PowerKept(s, 64);
  }

  lemma PowerKept(s: nat, n: nat)
    requires s < n
    ensures Scale(1, s) % Pow2(n) == Pow2(s)
  {
    Pow2Mono(s + 1, n);
    NoWrap(Scale(1, s), Pow2(n));
  }

  lemma LowMaskOnes(left: nat)
    requires left < 64
    ensures LowMask(left) == Pow2(left) - 1
  {
    ShlOne(left);
  }

  lemma AndLowMask(x: Word, left: nat)
    requires left < 64
    ensures And(x, LowMask(left)) == x % Pow2(left)
  {
    LowMaskOnes(left);
    AndMask(x, left);
  }

  lemma AndLastWordMask(x: Word, bits: nat)
    ensures And(x, LastWordMask(bits)) == if bits % 64 != 0 then x % Pow2(bits % 64) else x
  {
    if bits % 64 != 0 {
      AndLowMask(x, bits % 64);
    } else {
      WordRange();
      AndMask(x, 64);
      NoWrap(x, Pow2(64));
    }
  }

  lemma BitNot(x: Word, i: nat)
    requires i < 64
    ensures Bit(Not(x), i) == !Bit(x, i)
  {
    WordRange();
    BitComplement(x, 64, i);
  }

  lemma BitShl(x: Word, s: nat, i: nat)
    ensures Bit(Shl(x, s), i) == (s <= i < 64 && Bit(x, i - s))
  {
    BitMod(Scale(x, s), 64, i);
    BitMul(x, s, i);
  }

  lemma BitShr(x: Word, s: nat, i: nat)
    ensures Bit(Shr(x, s), i) == Bit(x, s + i)
  {
    BitDiv(x, s, i);
  }

  lemma BitWordHigh(x: Word, i: nat)
    requires i >= 64
    ensures !Bit(x, i)
  {
    WordRange();
    BitSmall(x, 64, i);
  }

  // Words agree when their 64 bits do.
  lemma SameBits(x: Word, y: Word)
    requires forall i :: 0 <= i < 64 ==> Bit(x, i) == Bit(y, i)
    ensures x == y
  {
    WordRange();
    BitsDetermine(x, y, 64);
  }

  // ---------------------------------------------------------------------------
  // Rows of words, least significant word first
  // ---------------------------------------------------------------------------

  // The number a row of words stands for.
  function Value(s: seq<Word>): nat {
    if s == [] then 0 else Join(s[0], Value(s[1..]), 64)
  }

  // Word k of a number.
  function Digit(x: nat, k: nat): Word {
    WordRange();
    High(x, 64 * k) % Pow2(64)
  }

  lemma {:induction false} ValueBound(s: seq<Word>)
    ensures Value(s) < Pow2(64 * |s|)
  {
    if s != [] {
      WordRange();
      var rest := s[1..];
      ValueBound(rest);
      Pow2Add(64, 64 * |rest|);
      MulMono(Value(rest) + 1, Pow2(64 * |rest|), Pow2(64));
    }
  }

  lemma {:induction false} ValueAppend(s: seq<Word>, t: seq<Word>)
    ensures Value(s + t) == Join(Value(s), Value(t), 64 * |s|)
  {
    if s == [] {
      assert s + t == t;
    } else {
      ValueAppend(s[1..], t);
      assert (s + t)[1..] == s[1..] + t;
      JoinAssoc(s[0], Value(s[1..]), Value(t), 64, 64 * |s[1..]|);
    }
  }

  lemma {:induction false} BitValue(s: seq<Word>, j: nat)
    requires j < 64 * |s|
    ensures Bit(Value(s), j) == Bit(s[j / 64], j % 64)
  {
    WordRange();
    BitJoin(s[0], Value(s[1..]), 64, j);
    if j < 64 {
      WordIndex(j, 0, j);
    } else {
      NextWordIndex(j);
      BitValue(s[1..], j - 64);
    }
  }

  // Where bit b of word k lies.
  lemma WordIndex(j: nat, k: nat, b: nat)
    requires b < 64 && j == 64 * k + b
    ensures j / 64 == k && j % 64 == b
  {
    DivModUnique(j, 64, k, b);
  }

  lemma NextWordIndex(j: nat)
    requires j >= 64
    ensures j / 64 == (j - 64) / 64 + 1 && j % 64 == (j - 64) % 64
  {
    var i: nat := j - 64;
    DivMod(i, 64);
    WordIndex(j, i / 64 + 1, i % 64);
  }

  lemma BitDigit(x: nat, k: nat, b: nat)
    ensures Bit(Digit(x, k), b) == (b < 64 && Bit(x, 64 * k + b))
  {
    BitMod(High(x, 64 * k), 64, b);
    BitDiv(x, 64 * k, b);
  }

  // A row that holds the words of x stands for x.
  lemma ValueOfDigits(s: seq<Word>, x: nat)
    requires x < Pow2(64 * |s|)
    requires forall k :: 0 <= k < |s| ==> s[k] == Digit(x, k)
    ensures Value(s) == x
  {
    ValueBound(s);
    forall j | 0 <= j < 64 * |s|
      ensures Bit(Value(s), j) == Bit(x, j)
    {
      BitValue(s, j);
      DivMod(j, 64);
      BitDigit(x, j / 64, j % 64);
    }
    BitsDetermine(Value(s), x, 64 * |s|);
  }

  lemma DigitOfValue(s: seq<Word>, k: nat)
    requires k < |s|
    ensures Digit(Value(s), k) == s[k]
  {
    forall b | 0 <= b < 64
      ensures Bit(Digit(Value(s), k), b) == Bit(s[k], b)
    {
      BitDigit(Value(s), k, b);
      BitValue(s, 64 * k + b);
      WordIndex(64 * k + b, k, b);
    }
    SameBits(Digit(Value(s), k), s[k]);
  }

  lemma ValueStep(s: seq<Word>, k: nat)
    requires k < |s|
    ensures Value(s[..k + 1]) == Join(Value(s[..k]), s[k], 64 * k)
  {
    assert s[..k + 1] == s[..k] + [s[k]];
    assert Value([s[k]]) == s[k];
    ValueAppend(s[..k], [s[k]]);
  }

  // The bits below n of the word that n falls into; none when n is at a word boundary.
  function PartialWord(s: seq<Word>, n: nat): (low: nat)
    requires BitsToLongs(n) <= |s|
    ensures low < Pow2(n % 64)
  {
    if n % 64 == 0 then 0 else s[n / 64] % Pow2(n % 64)
  }

  // The low n bits of a row: its whole words below n, and part of the next one.
  lemma LowBits(s: seq<Word>, n: nat)
    requires BitsToLongs(n) <= |s|
    ensures Value(s) % Pow2(n) == Join(Value(s[..n / 64]), PartialWord(s, n), 64 * (n / 64))
  {
    var q: nat, r: nat := n / 64, n % 64;
    var low: nat, high: nat := Value(s[..q]), PartialWord(s, n);
    assert low < Pow2(64 * q) by { ValueBound(s[..q]); }
    var y: nat := Join(low, high, 64 * q);
    JoinBoundAt(low, high, 64 * q, r, n);
    forall i | 0 <= i < n
      ensures Bit(y, i) == Bit(Value(s), i)
    {
      BitOfLow(s, n, i);
    }
    LowDetermined(Value(s), y, n);
  }

  lemma JoinBoundAt(x: nat, y: nat, m: nat, r: nat, n: nat)
    requires x < Pow2(m) && y < Pow2(r) && n == m + r
    ensures Join(x, y, m) < Pow2(n)
  {
    JoinBound(x, y, m, r);
  }

  lemma BitOfLow(s: seq<Word>, n: nat, i: nat)
    requires BitsToLongs(n) <= |s| && i < n
    ensures Bit(Join(Value(s[..n / 64]), PartialWord(s, n), 64 * (n / 64)), i) == Bit(Value(s), i)
  {
    var q: nat, r: nat := n / 64, n % 64;
    ValueBound(s[..q]);
    BitValue(s, i);
    BitJoin(Value(s[..q]), PartialWord(s, n), 64 * q, i);
    if i < 64 * q {
      BitValue(s[..q], i);
    } else {
      WordIndex(i, q, i - 64 * q);
      BitMod(s[q], r, i - 64 * q);
    }
  }

  lemma JoinInjective(x: nat, y: nat, x': nat, y': nat, n: nat)
    requires x < Pow2(n) && x' < Pow2(n)
    requires Join(x, y, n) == Join(x', y', n)
    ensures x == x' && y == y'
  {
    DivModUnique(Join(x, y, n), Pow2(n), y, x);
    DivModUnique(Join(x, y, n), Pow2(n), y', x');
  }

  lemma ValueInjective(s: seq<Word>, t: seq<Word>)
    requires |s| == |t| && Value(s) == Value(t)
    ensures s == t
  {
    forall k | 0 <= k < |s|
      ensures s[k] == t[k]
    {
      DigitOfValue(s, k);
      DigitOfValue(t, k);
    }
  }

  // Two rows have the same low n bits when they agree on the words below n and on part of the next.
  ghost predicate SameLowWords(s: seq<Word>, t: seq<Word>, n: nat)
    requires BitsToLongs(n) <= |s| && BitsToLongs(n) <= |t|
  {
    s[..n / 64] == t[..n / 64] && PartialWord(s, n) == PartialWord(t, n)
  }

  lemma SameLow(s: seq<Word>, t: seq<Word>, n: nat)
    requires BitsToLongs(n) <= |s| && BitsToLongs(n) <= |t|
    ensures SameLowWords(s, t, n) <==> Value(s) % Pow2(n) == Value(t) % Pow2(n)
  {
    LowBits(s, n);
    LowBits(t, n);
    if Value(s) % Pow2(n) == Value(t) % Pow2(n) {
      ValueBound(s[..n / 64]);
      ValueBound(t[..n / 64]);
      JoinInjective(Value(s[..n / 64]), PartialWord(s, n), Value(t[..n / 64]), PartialWord(t, n), 64 * (n / 64));
      ValueInjective(s[..n / 64], t[..n / 64]);
    }
  }

  lemma ValueBitwise(g: Gate, s: seq<Word>, a: seq<Word>, b: seq<Word>)
    requires |s| == |a| == |b|
    requires forall k :: 0 <= k < |s| ==> s[k] == Bitwise(g, a[k], b[k])
    ensures Value(s) == Bitwise(g, Value(a), Value(b))
  {
    if s != [] {
      ValueBitwise(g, s[1..], a[1..], b[1..]);
      WordRange();
      BitwiseJoin(g, a[0], Value(a[1..]), b[0], Value(b[1..]), 64);
    }
  }

  lemma ValueZeros(s: seq<Word>)
    requires forall k :: 0 <= k < |s| ==> s[k] == 0
    ensures Value(s) == 0
  {
  }

  lemma ValueOnes(s: seq<Word>)
    requires forall k :: 0 <= k < |s| ==> s[k] == ULONG_MAX
    ensures Value(s) == Pow2(64 * |s|) - 1
  {
    if s != [] {
      var m: nat := 64 * |s[1..]|;
      ValueOnes(s[1..]);
      WordRange();
      OnesJoin(64, m);
      assert Pow2(64 * |s|) == Pow2(64 + m);
    }
  }

  lemma OnesJoin(m: nat, n: nat)
    ensures Join(Pow2(m) - 1, Pow2(n) - 1, m) == Pow2(m + n) - 1
  {
    Pow2Add(m, n);
    MulDistrib(Pow2(m), Pow2(n) - 1, 1);
  }

  // The mask of the top word of a bitmap, where there is one.
  function TopMasked(w: Word, bits: nat, k: nat): Word {
    if bits % 64 != 0 && k == BitsToLongs(bits) - 1 then And(w, LowMask(bits % 64)) else w
  }

  lemma BitTopMasked(w: Word, bits: nat, k: nat, b: nat)
    requires k < BitsToLongs(bits) && b < 64
    ensures Bit(TopMasked(w, bits, k), b) == (64 * k + b < bits && Bit(w, b))
  {
    TopIndex(bits, k, b);
    if bits % 64 != 0 && k == BitsToLongs(bits) - 1 {
      AndLowMask(w, bits % 64);
      BitMod(w, bits % 64, b);
    }
  }

  lemma TopIndex(bits: nat, k: nat, b: nat)
    requires k < BitsToLongs(bits) && b < 64
    ensures 64 * k + b < bits <==> !(bits % 64 != 0 && k == BitsToLongs(bits) - 1) || b < bits % 64
  {
  }

  // Reducing a number modulo 2^bits touches only the word that `bits` falls into.
  lemma LowWord(x: nat, bits: nat, k: nat)
    requires k < BitsToLongs(bits)
    ensures Digit(x % Pow2(bits), k) == TopMasked(Digit(x, k), bits, k)
  {
    var y, z := Digit(x % Pow2(bits), k), TopMasked(Digit(x, k), bits, k);
    forall b | 0 <= b < 64
      ensures Bit(y, b) == Bit(z, b)
    {
      BitDigit(x % Pow2(bits), k, b);
      BitMod(x, bits, 64 * k + b);
      BitTopMasked(Digit(x, k), bits, k, b);
      BitDigit(x, k, b);
    }
    SameBits(y, z);
  }
}
