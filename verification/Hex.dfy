/** ASCII classes and hexadecimal numerals. */
module Hex {
  import opened Bits

  const NUL := '\0'

  // isspace in the C locale.
  predicate IsSpace(c: char) {
    c == ' ' || 9 <= c as int <= 13
  }

  lemma SpaceCodes(c: char)
    ensures IsSpace(c) <==> c as int in {9, 10, 11, 12, 13, 32}
  {
  }

  predicate IsDigit(c: char) {
    '0' <= c <= '9'
  }

  predicate IsXDigit(c: char) {
    IsDigit(c) || 'a' <= c <= 'f' || 'A' <= c <= 'F'
  }

  function ToUpper(c: char): char {
    if 'a' <= c <= 'z' then ((c as int) - 32) as char else c
  }

  // unhex
  function Unhex(c: char): (d: nat)
    requires IsXDigit(c)
    ensures d < 16
  {
    if IsDigit(c) then c as int - '0' as int else ToUpper(c) as int - 'A' as int + 10
  }

  function HexDigit(d: nat): (c: char)
    requires d < 16
    ensures IsXDigit(c) && !IsSpace(c)
    ensures Unhex(c) == d
  {
    if d < 10 then (d + '0' as int) as char else (d - 10 + 'a' as int) as char
  }

  predicate Numeral(s: string) {
    forall i :: 0 <= i < |s| ==> IsXDigit(s[i])
  }

  // The value of the digits of s read after `high`.
  function Continue(high: nat, s: string): (v: nat)
    requires Numeral(s)
    ensures v >= high
    decreases |s|
  {
    if s == "" then high else Continue(16 * high + Unhex(s[0]), s[1..])
  }

  function NumeralValue(s: string): nat
    requires Numeral(s)
  {
    Continue(0, s)
  }

  lemma {:induction false} ContinueLast(high: nat, s: string, c: char)
    requires Numeral(s) && IsXDigit(c)
    ensures Continue(high, s + [c]) == 16 * Continue(high, s) + Unhex(c)
    decreases |s|
  {
    if s == "" {
      assert (s + [c])[1..] == "";
    } else {
      assert (s + [c])[1..] == s[1..] + [c];
      ContinueLast(16 * high + Unhex(s[0]), s[1..], c);
    }
  }

  // The last w digits of v.
  function Fixed(v: nat, w: nat): (s: string)
    ensures |s| == w && Numeral(s)
  {
    if w == 0 then "" else Fixed(v / 16, w - 1) + [HexDigit(v % 16)]
  }

  lemma {:induction false} FixedValue(v: nat, w: nat)
    ensures NumeralValue(Fixed(v, w)) == v % Pow2(4 * w)
  {
    if w > 0 {
      FixedValue(v / 16, w - 1);
      ContinueLast(0, Fixed(v / 16, w - 1), HexDigit(v % 16));
      SplitDigit(v, w);
    }
  }

  lemma SplitDigit(v: nat, w: nat)
    requires w > 0
    ensures v % Pow2(4 * w) == 16 * (v / 16 % Pow2(4 * (w - 1))) + v % 16
  {
    Pow2Product(2, 2, 4, 4);
    Pow2Above(4, 4 * (w - 1), 4 * w, 16);
    DivDiv(v, 16, Pow2(4 * (w - 1)));
  }

  // ---------------------------------------------------------------------------
  // "%0*lx"
  // ---------------------------------------------------------------------------

  // v without leading zeros, but at least one digit.
  function Shortest(v: nat): (s: string)
    ensures |s| > 0 && Numeral(s)
  {
    if v < 16 then [HexDigit(v)] else Shortest(v / 16) + [HexDigit(v % 16)]
  }

  function Zeros(k: nat): (s: string)
    ensures |s| == k
  {
    seq(k, _ => '0')
  }

  // v padded with zeros to at least w digits.
  function Padded(v: nat, w: nat): string {
    var s := Shortest(v);
    if |s| < w then Zeros(w - |s|) + s else s
  }

  lemma {:induction false} FixedOfZero(w: nat)
    ensures Fixed(0, w) == Zeros(w)
  {
    if w > 0 {
      FixedOfZero(w - 1);
      assert Zeros(w) == Zeros(w - 1) + ['0'];
      assert HexDigit(0) == '0';
    }
  }

  // A value that fits in w digits is printed with exactly w digits.
  lemma {:induction false} PaddedIsFixed(v: nat, w: nat)
    requires w > 0 && v < Pow2(4 * w)
    ensures Padded(v, w) == Fixed(v, w)
    decreases w
  {
    if v < 16 {
      FixedOfZero(w - 1);
      assert Shortest(v) == [HexDigit(v)];
      assert Fixed(v, w) == Zeros(w - 1) + [HexDigit(v)];
      if w == 1 {
        assert Zeros(0) == "";
      }
    } else {
      FitsRest(v, w);
      PaddedIsFixed(v / 16, w - 1);
      PaddedLast(v, w);
    }
  }

  lemma PaddedLast(v: nat, w: nat)
    requires v >= 16 && w > 0
    ensures Padded(v, w) == Padded(v / 16, w - 1) + [HexDigit(v % 16)]
  {
    var s := Shortest(v / 16);
    assert Shortest(v) == s + [HexDigit(v % 16)];
    if |s| < w - 1 {
      ConcatAssoc(Zeros(w - 1 - |s|), s, [HexDigit(v % 16)]);
    }
  }

  lemma ConcatAssoc(a: string, b: string, c: string)
    ensures a + (b + c) == (a + b) + c
  {
  }

  lemma FitsRest(v: nat, w: nat)
    requires 16 <= v < Pow2(4 * w)
    ensures w > 1 && v / 16 < Pow2(4 * (w - 1))
  {
    if w > 0 {
      Pow2Product(2, 2, 4, 4);
      Pow2Above(4, 4 * (w - 1), 4 * w, 16);
    }
  }
}
