/** What single characters mean to the parser, by their codes and by their places in digit strings. */
module Characters {
  import opened Bits
  import Words
  import opened Hex
  import opened Parser
  import opened Grammar

  // ---------------------------------------------------------------------------
  // The classes
  // ---------------------------------------------------------------------------

  lemma LowerDigit(k: nat)
    requires k < 16
    ensures var c := "0123456789abcdef"[k]; IsXDigit(c) && Unhex(c) == k
  {
  }

  lemma UpperDigit(k: nat)
    requires k < 16
    ensures var c := "0123456789ABCDEF"[k]; IsXDigit(c) && Unhex(c) == k
  {
  }

  // Digit k, in either case.
  lemma DigitOfPlace(k: nat, c: char)
    requires k < 16 && (c == "0123456789abcdef"[k] || c == "0123456789ABCDEF"[k])
    ensures IsXDigit(c) && Unhex(c) == k
  {
    LowerDigit(k);
    UpperDigit(k);
  }

  lemma DigitCharacters(c: char)
    ensures IsXDigit(c) <==> c in "0123456789abcdefABCDEF"
  {
    if IsXDigit(c) {
      DigitListed(c);
    } else if c in "0123456789abcdefABCDEF" {
      ListedDigit(c);
    }
  }

  lemma DigitListed(c: char)
    requires IsXDigit(c)
    ensures c in "0123456789abcdefABCDEF"
  {
    var all, i := "0123456789abcdefABCDEF", c as int;
    if 48 <= i <= 57 {
      assert all[i - 48] == c;
    } else if 97 <= i <= 102 {
      assert all[i - 87] == c;
    } else {
      assert all[i - 49] == c;
    }
  }

  lemma ListedDigit(c: char)
    requires c in "0123456789abcdefABCDEF"
    ensures IsXDigit(c)
  {
    var all := "0123456789abcdefABCDEF";
    var i: nat :| i < |all| && all[i] == c;
    if i < 16 {
      assert c == "0123456789abcdef"[i];
      LowerDigit(i);
    } else {
      assert c == "0123456789ABCDEF"[i - 6];
      UpperDigit(i - 6);
    }
  }

  // ---------------------------------------------------------------------------
  // Characters that the parser does not tell apart
  // ---------------------------------------------------------------------------

  // A hexadecimal letter and its capital.
  ghost predicate Capital(a: char, b: char) {
    exists k :: 0 <= k < 6 && a == "abcdef"[k] && b == "ABCDEF"[k]
  }

  // The same character, two white spaces, or a hexadecimal letter in either case.
  ghost predicate SameRole(a: char, b: char) {
    || a == b
    || (a as int in {9, 10, 11, 12, 13, 32} && b as int in {9, 10, 11, 12, 13, 32})
    || Capital(a, b)
    || Capital(b, a)
  }

  lemma CapitalValue(a: char, b: char)
    requires Capital(a, b)
    ensures IsXDigit(a) && IsXDigit(b) && Unhex(a) == Unhex(b)
  {
    var k: nat :| k < 6 && a == "abcdef"[k] && b == "ABCDEF"[k];
    assert "abcdef"[k] == "0123456789abcdef"[10 + k] && "ABCDEF"[k] == "0123456789ABCDEF"[10 + k];
    LowerDigit(10 + k);
    UpperDigit(10 + k);
  }

  // What the scan asks of a character has the same answers.
  ghost predicate Alike(a: char, b: char) {
    && IsSpace(a) == IsSpace(b)
    && IsXDigit(a) == IsXDigit(b)
    && (IsXDigit(a) ==> Unhex(a) == Unhex(b))
    && (a == NUL <==> b == NUL)
    && (a == ',' <==> b == ',')
  }

  lemma RoleKept(a: char, b: char)
    requires SameRole(a, b)
    ensures Alike(a, b)
  {
    SpaceCodes(a);
    SpaceCodes(b);
    if Capital(a, b) {
      CapitalValue(a, b);
    } else if Capital(b, a) {
      CapitalValue(b, a);
    }
  }

  ghost predicate SameRoles(s: string, t: string) {
    |s| == |t| && forall i :: 0 <= i < |s| ==> SameRole(s[i], t[i])
  }

  lemma {:induction false} ScanSameRoles(s: string, t: string, n: nat, p: char, q: char, started: bool, digits: bool,
                                         group: nat, value: nat)
    requires SameRoles(s, t) && IsSpace(p) == IsSpace(q)
    ensures Scan(s, n, p, started, digits, group, value) == Scan(t, n, q, started, digits, group, value)
    decreases |s|
  {
    if s != "" {
      var a, b, s', t' := s[0], t[0], s[1..], t[1..];
      assert SameRoles(s', t');
      assert Alike(a, b) by { RoleKept(a, b); }
      if IsSpace(a) {
        ScanSameRoles(s', t', n, a, b, started, digits, group, value);
      } else if a == ',' {
        var end := EndOfGroup(n, digits, group, value);
        if end.Accepted? {
          ScanSameRoles(s', t', n, a, b, started, false, 0, end.value);
        }
      } else if IsXDigit(a) {
        ScanSameRoles(s', t', n, a, b, true, true, 16 * group + Unhex(a), value);
      }
    }
  }

  // Any text, with any white space replaced by other white space and any letters by their capitals.
  lemma ParsedSameRoles(s: string, t: string, n: nat)
    requires SameRoles(s, t)
    ensures Parsed(s, n) == Parsed(t, n)
  {
    ScanSameRoles(s, t, n, NUL, NUL, false, false, 0, 0);
  }

  // ---------------------------------------------------------------------------
  // The zero byte
  // ---------------------------------------------------------------------------

  lemma {:induction false} ScanToZero(t: string, junk: string, n: nat, prev: char, started: bool, digits: bool,
                                      group: nat, value: nat)
    requires t != "" ==> t[|t| - 1] != ','
    ensures Scan(t + ([0 as char] + junk), n, prev, started, digits, group, value) ==
            Scan(t, n, prev, started, digits, group, value)
    decreases |t|
  {
    var zero := [0 as char] + junk;
    if t == "" {
      assert t + zero == zero && zero[0] == NUL;
    } else {
      var c := t[0];
      assert (t + zero)[0] == c && (t + zero)[1..] == t[1..] + zero;
      if IsSpace(c) {
        ScanToZero(t[1..], junk, n, c, started, digits, group, value);
      } else if c == ',' {
        var end := EndOfGroup(n, digits, group, value);
        if end.Accepted? {
          ScanToZero(t[1..], junk, n, c, started, false, 0, end.value);
        }
      } else if IsXDigit(c) {
        ScanToZero(t[1..], junk, n, c, true, true, 16 * group + Unhex(c), value);
      }
    }
  }

  // A zero byte ends a text that does not end in a comma, whatever comes after it.
  lemma ZeroEndsText(t: string, junk: string, n: nat)
    requires t != "" ==> t[|t| - 1] != ','
    ensures Parsed(t + ([0 as char] + junk), n) == Parsed(t, n)
  {
    ScanToZero(t, junk, n, NUL, false, false, 0, 0);
  }

  // ---------------------------------------------------------------------------
  // One character before or after the groups
  // ---------------------------------------------------------------------------

  lemma MeaningWithoutLast(gs: seq<string>)
    requires AreGroups(gs) && gs != [] && Fit32(gs)
    ensures Meaning(gs[..|gs| - 1]) == Meaning(gs) / 0x1_0000_0000
  {
    Fit32Snoc(gs);
    var last: nat, rest: nat := NumeralValue(gs[|gs| - 1]), Meaning(gs[..|gs| - 1]);
    assert Meaning(gs) == 0x1_0000_0000 * rest + last by { Words.Pow2Of32(); }
    DivModUnique(Meaning(gs), 0x1_0000_0000, rest, last);
  }

  lemma OneCharacterEnding(c: char)
    requires c !in "0123456789abcdefABCDEF"
    ensures Remainder([c])
    ensures EndingOf([c]) == if c as int in {0, 9, 10, 11, 12, 13, 32} || c == ',' then Finished else Illegal(false)
  {
    DigitCharacters(c);
    SpaceCodes(c);
    assert [c][1..] == "";
    assert SkipBlank([c]) == if IsSpace(c) then SkipBlank("") else [c];
  }

  // After groups that fit: white space, a comma and a zero byte change nothing; any other character that is not
  // a digit is an error, and leaves what had been read before the last group.
  lemma CharacterAfter(gs: seq<string>, c: char, n: nat)
    requires AreGroups(gs) && gs != [] && Fit32(gs) && Meaning(gs) < Pow2(n)
    requires c !in "0123456789abcdefABCDEF"
    ensures Parsed(Joined(gs) + [c], n) ==
            if c as int in {0, 9, 10, 11, 12, 13, 32} || c == ',' then Accepted(Meaning(gs))
            else Invalid(Meaning(gs) / 0x1_0000_0000)
  {
    OneCharacterEnding(c);
    ParsedFromFirst(gs, [c], n);
    MeaningWithoutLast(gs);
    MeaningGrows(gs);
  }

  // Before the groups: white space changes nothing; any other character that is not a digit is an error.
  lemma CharacterBefore(gs: seq<string>, c: char, n: nat)
    requires AreGroups(gs) && gs != [] && Fit32(gs) && Meaning(gs) < Pow2(n)
    requires c !in "0123456789abcdefABCDEF"
    ensures Parsed([c] + Joined(gs), n) ==
            if c as int in {9, 10, 11, 12, 13, 32} then Accepted(Meaning(gs)) else Invalid(0)
  {
    DigitCharacters(c);
    SpaceCodes(c);
    if IsSpace(c) {
      assert [c] + Joined(gs) + "" == [c] + Joined(gs);
      ParsedWellFormed([c], gs, "", n);
    } else {
      assert "" + ([c] + Joined(gs)) == [c] + Joined(gs);
      ParsedNothing("", [c] + Joined(gs), n);
    }
  }

  // The groups with one more digit in the last of them.
  lemma OneMoreDigitOf(gs: seq<string>, c: char) returns (gs': seq<string>)
    requires AreGroups(gs) && gs != [] && Fit32(gs) && IsXDigit(c)
    ensures AreGroups(gs') && gs' != [] && Joined(gs') == Joined(gs) + [c]
    ensures Fit32(gs') <==> NumeralValue(gs[|gs| - 1]) < 0x1000_0000
    ensures Meaning(gs') == Join(16 * NumeralValue(gs[|gs| - 1]) + Unhex(c), Meaning(gs[..|gs| - 1]), 32)
  {
    var init, last := gs[..|gs| - 1], gs[|gs| - 1];
    gs' := init + [last + [c]];
    assert gs'[..|gs'| - 1] == init && gs'[|gs'| - 1] == last + [c];
    ContinueLast(0, last, c);
    Fit32Snoc(gs);
    Fit32Snoc(gs');
    JoinedLonger(gs, gs', c);
  }

  lemma JoinedLonger(gs: seq<string>, gs': seq<string>, c: char)
    requires gs != [] && gs' == gs[..|gs| - 1] + [gs[|gs| - 1] + [c]]
    ensures Joined(gs') == Joined(gs) + [c]
  {
    if |gs| > 1 {
      var a, last := Joined(gs[..|gs| - 1]), gs[|gs| - 1];
      assert gs'[..|gs'| - 1] == gs[..|gs| - 1];
      assert Joined(gs') == a + "," + (last + [c]);
      assert Joined(gs) == a + "," + last;
      ConcatAssoc(a + ",", last, [c]);
    }
  }

  // Digit k, in either case, after groups that fit: it moves the last group up by four bits, if they are free.
  lemma DigitAfter(gs: seq<string>, k: nat, c: char, last: nat, rest: nat, whole: nat, n: nat)
    requires AreGroups(gs) && gs != [] && Fit32(gs)
    requires last == NumeralValue(gs[|gs| - 1]) && rest == Meaning(gs[..|gs| - 1])
    requires k < 16 && (c == "0123456789abcdef"[k] || c == "0123456789ABCDEF"[k])
    requires whole == Join(16 * last + k, rest, 32)
    ensures Parsed(Joined(gs) + [c], n) == if last >= 0x1000_0000 || whole >= Pow2(n) then Overflow else Accepted(whole)
  {
    assert IsXDigit(c) && Unhex(c) == k by { DigitOfPlace(k, c); }
    var gs' := OneMoreDigitOf(gs, c);
    ParsedWhole(gs', n);
  }

  lemma ParsedWhole(gs: seq<string>, n: nat)
    requires AreGroups(gs) && gs != []
    ensures Parsed(Joined(gs), n) == if Fit32(gs) && Meaning(gs) < Pow2(n) then Accepted(Meaning(gs)) else Overflow
  {
    assert "" + Joined(gs) + "" == Joined(gs);
    ParsedWellFormed("", gs, "", n);
  }

  // Digit k alone, in either case.
  lemma DigitAlone(k: nat, c: char, n: nat)
    requires k < 16 && (c == "0123456789abcdef"[k] || c == "0123456789ABCDEF"[k])
    ensures Parsed([c], n) == if k < Pow2(n) then Accepted(k) else Overflow
  {
    assert IsXDigit(c) && Unhex(c) == k by { DigitOfPlace(k, c); }
    OneDigitGroup(c);
    ParsedWhole([[c]], n);
  }

  lemma OneDigitGroup(c: char)
    requires IsXDigit(c)
    ensures AreGroups([[c]]) && Fit32([[c]]) && Joined([[c]]) == [c] && Meaning([[c]]) == Unhex(c)
  {
    assert [c][1..] == "" && [[c]][..0] == [];
    assert NumeralValue([c]) == Continue(Unhex(c), "");
    assert Meaning([]) == 0;
  }
}
