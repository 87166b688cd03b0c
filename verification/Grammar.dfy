/** Which texts the parser accepts and what they mean: a decomposition of every text, and its verdict. */
module Grammar {
  import opened Bits
  import opened Hex
  import opened Parser

  // A group: at least one hexadecimal digit.
  predicate IsGroup(s: string) {
    s != "" && Numeral(s)
  }

  predicate AreGroups(gs: seq<string>) {
    forall i :: 0 <= i < |gs| ==> IsGroup(gs[i])
  }

  // White space: tab, line feed, vertical tab, form feed, carriage return and space.
  predicate Blank(s: string) {
    forall i :: 0 <= i < |s| ==> s[i] as int in {9, 10, 11, 12, 13, 32}
  }

  // Groups separated by commas.
  function Joined(gs: seq<string>): string {
    if gs == [] then "" else if |gs| == 1 then gs[0] else Joined(gs[..|gs| - 1]) + "," + gs[|gs| - 1]
  }

  // The number that groups of 32 bits stand for, most significant group first.
  function Meaning(gs: seq<string>): nat
    requires AreGroups(gs)
  {
    if gs == [] then 0 else Join(NumeralValue(gs[|gs| - 1]), Meaning(gs[..|gs| - 1]), 32)
  }

  // No group exceeds 32 bits.
  predicate Fit32(gs: seq<string>)
    requires AreGroups(gs)
  {
    forall i :: 0 <= i < |gs| ==> NumeralValue(gs[i]) < 0x1_0000_0000
  }

  // ---------------------------------------------------------------------------
  // Scanning the parts
  // ---------------------------------------------------------------------------

  lemma {:induction false} ScanBlank(ws: string, rest: string, n: nat, prev: char, started: bool, digits: bool,
                                     group: nat, value: nat)
    requires Blank(ws)
    ensures Scan(ws + rest, n, prev, started, digits, group, value) ==
            Scan(rest, n, if ws == "" then prev else ws[|ws| - 1], started, digits, group, value)
    decreases |ws|
  {
    if ws == "" {
      assert ws + rest == rest;
    } else {
      assert (ws + rest)[1..] == ws[1..] + rest;
      ScanBlank(ws[1..], rest, n, ws[0], started, digits, group, value);
    }
  }

  // The digits of a group: accepted up to 32 bits.
  lemma {:induction false} ScanDigits(d: string, rest: string, n: nat, prev: char, started: bool, digits: bool,
                                      group: nat, value: nat)
    requires IsGroup(d) && (started ==> !IsSpace(prev)) && group < 0x1_0000_0000
    ensures Scan(d + rest, n, prev, started, digits, group, value) ==
            if Continue(group, d) < 0x1_0000_0000
            then Scan(rest, n, d[|d| - 1], true, true, Continue(group, d), value) else Overflow
    decreases |d|
  {
    var c, group' := d[0], 16 * group + Unhex(d[0]);
    assert (d + rest)[0] == c && (d + rest)[1..] == d[1..] + rest;
    assert !IsSpace(c) && c != NUL && c != ',';
    assert Continue(group, d) == Continue(group', d[1..]) >= group';
    if group < 0x1000_0000 {
      if |d| == 1 {
        assert d[1..] + rest == rest;
      } else {
        ScanDigits(d[1..], rest, n, c, true, true, group', value);
      }
    }
  }

  lemma MeaningGrows(gs: seq<string>)
    requires AreGroups(gs) && gs != []
    ensures Meaning(gs[..|gs| - 1]) <= Meaning(gs)
  {
    var v := Meaning(gs[..|gs| - 1]);
    MulMono(1, Pow2(32), v);
  }

  // All groups scanned, with `rest` still to come after the last of them.
  function AfterGroups(gs: seq<string>, rest: string, n: nat): Outcome
    requires AreGroups(gs) && gs != []
  {
    var init, last := gs[..|gs| - 1], gs[|gs| - 1];
    if Fit32(gs) && Meaning(init) < Pow2(n)
    then Scan(rest, n, last[|last| - 1], true, true, NumeralValue(last), Meaning(init))
    else Overflow
  }

  lemma CommaStep(last: string, rest: string, n: nat, prev: char, group: nat, value: nat)
    requires IsGroup(last) && !IsSpace(prev)
    ensures Scan("," + last + rest, n, prev, true, true, group, value) ==
            if Join(group, value, 32) < Pow2(n) then Scan(last + rest, n, ',', true, false, 0, Join(group, value, 32))
            else Overflow
  {
    var t := "," + last + rest;
    assert t[0] == ',' && t[1..] == last + rest;
  }

  lemma Fit32Snoc(gs: seq<string>)
    requires AreGroups(gs) && gs != []
    ensures Fit32(gs) <==> Fit32(gs[..|gs| - 1]) && NumeralValue(gs[|gs| - 1]) < 0x1_0000_0000
  {
  }

  lemma JoinedSnoc(gs: seq<string>, rest: string)
    requires |gs| > 1
    ensures Joined(gs) + rest == Joined(gs[..|gs| - 1]) + ("," + gs[|gs| - 1] + rest)
  {
    var a, c := Joined(gs[..|gs| - 1]), gs[|gs| - 1];
    assert Joined(gs) == a + "," + c;
    FourParts(a, ",", c, rest);
  }

  lemma FourParts(a: string, b: string, c: string, d: string)
    ensures a + b + c + d == a + (b + c + d)
  {
  }

  lemma {:induction false} ScanGroups(gs: seq<string>, rest: string, n: nat, prev: char)
    requires AreGroups(gs) && gs != []
    ensures Scan(Joined(gs) + rest, n, prev, false, false, 0, 0) == AfterGroups(gs, rest, n)
    decreases |gs|
  {
    var last, init := gs[|gs| - 1], gs[..|gs| - 1];
    Fit32Snoc(gs);
    if |gs| == 1 {
      assert init == [];
      ScanDigits(last, rest, n, prev, false, false, 0, 0);
    } else {
      var last', init' := init[|init| - 1], init[..|init| - 1];
      JoinedSnoc(gs, rest);
      ScanGroups(init, "," + last + rest, n, prev);
      MeaningGrows(init);
      if Fit32(init) && Meaning(init') < Pow2(n) {
        CommaStep(last, rest, n, last'[|last'| - 1], NumeralValue(last'), Meaning(init'));
        ScanDigits(last, rest, n, ',', true, false, 0, Meaning(init));
      }
    }
  }

  // ---------------------------------------------------------------------------
  // What follows the last group
  // ---------------------------------------------------------------------------

  function SkipBlank(t: string): string {
    if t != "" && IsSpace(t[0]) then SkipBlank(t[1..]) else t
  }

  // Nothing but white space up to a NUL or the end of the buffer.
  predicate AtEnd(t: string) {
    SkipBlank(t) == "" || SkipBlank(t)[0] == NUL
  }

  // What cannot be read as more of the last group, or as one more group.
  predicate Remainder(t: string) {
    (t != "" ==> !IsXDigit(t[0])) && (|t| > 1 && t[0] == ',' ==> !IsXDigit(t[1]))
  }

  // How a text goes on after its last group, and whether that group has been ended by a comma.
  datatype Ending = Finished | Stopped(comma: bool) | Illegal(comma: bool)

  function EndingOf(tail: string): Ending {
    if AtEnd(tail) || tail == "," then Finished
    else if IsSpace(tail[0]) then Stopped(false)
    else if tail[0] != ',' then Illegal(false)
    else if IsSpace(tail[1]) && !AtEnd(tail[1..]) then Stopped(true)
    else Illegal(true)
  }

  // The groups that have been put into the bitmap when the parser returns.
  function GroupsRead(gs: seq<string>, ending: Ending): (r: seq<string>)
    requires AreGroups(gs) && gs != []
    ensures AreGroups(r)
  {
    if ending.Finished? || ending.comma then gs else gs[..|gs| - 1]
  }

  // The verdict on a text with groups gs and the given ending: white space before anything but
  // the end silently stops the parser, without the last group unless a comma has ended it.
  function Verdict(gs: seq<string>, ending: Ending, n: nat): Outcome
    requires AreGroups(gs) && gs != []
  {
    var read := GroupsRead(gs, ending);
    if !Fit32(gs) || Meaning(read) >= Pow2(n) then Overflow
    else if ending.Illegal? then Invalid(Meaning(read))
    else Accepted(Meaning(read))
  }

  lemma {:induction false} ScanAfterBlank(t: string, n: nat, prev: char, digits: bool, group: nat, value: nat)
    ensures AtEnd(t) ==> Scan(t, n, prev, true, digits, group, value) == EndOfGroup(n, digits, group, value)
    ensures !AtEnd(t) && (IsSpace(t[0]) || IsSpace(prev)) ==>
              Scan(t, n, prev, true, digits, group, value) == Accepted(value)
    decreases |t|
  {
    if t != "" && IsSpace(t[0]) {
      ScanAfterBlank(t[1..], n, t[0], digits, group, value);
    }
  }

  lemma ScanAfterComma(t: string, n: nat, value: nat)
    requires t != "" && !IsXDigit(t[0])
    ensures Scan(t, n, ',', true, false, 0, value) ==
            if IsSpace(t[0]) && !AtEnd(t) then Accepted(value) else Invalid(value)
  {
    ScanAfterBlank(t, n, ',', false, 0, value);
  }

  lemma ScanEnding(tail: string, n: nat, prev: char, group: nat, value: nat)
    requires Remainder(tail) && !IsSpace(prev)
    ensures var whole := EndOfGroup(n, true, group, value);
            Scan(tail, n, prev, true, true, group, value) ==
            match EndingOf(tail)
            case Finished => whole
            case Stopped(comma) => if comma then whole else Accepted(value)
            case Illegal(comma) =>
              if !comma then Invalid(value) else if whole.Accepted? then Invalid(whole.value) else whole
  {
    ScanAfterBlank(tail, n, prev, true, group, value);
    if !AtEnd(tail) && tail[0] == ',' && |tail| > 1 {
      ScanAfterComma(tail[1..], n, Join(group, value, 32));
    }
  }

  // Every text with at least one group, for every width.
  lemma ParsedGroups(lead: string, gs: seq<string>, tail: string, n: nat)
    requires Blank(lead) && AreGroups(gs) && gs != [] && Remainder(tail)
    ensures Parsed(lead + Joined(gs) + tail, n) == Verdict(gs, EndingOf(tail), n)
  {
    var init, last := gs[..|gs| - 1], gs[|gs| - 1];
    assert lead + Joined(gs) + tail == lead + (Joined(gs) + tail);
    ScanBlank(lead, Joined(gs) + tail, n, NUL, false, false, 0, 0);
    ScanGroups(gs, tail, n, if lead == "" then NUL else lead[|lead| - 1]);
    ScanEnding(tail, n, last[|last| - 1], NumeralValue(last), Meaning(init));
    MeaningGrows(gs);
  }

  // Every text without a group.
  lemma ParsedNothing(lead: string, tail: string, n: nat)
    requires Blank(lead) && (tail != "" ==> !IsXDigit(tail[0]) && !IsSpace(tail[0]))
    ensures Parsed(lead + tail, n) == Invalid(0)
  {
    ScanBlank(lead, tail, n, NUL, false, false, 0, 0);
  }

  // ---------------------------------------------------------------------------
  // Every text is of one of these forms
  // ---------------------------------------------------------------------------

  lemma {:induction false} TakeDigits(t: string) returns (d: string, rest: string)
    ensures t == d + rest && Numeral(d) && (rest != "" ==> !IsXDigit(rest[0]))
    ensures d == "" <==> t == "" || !IsXDigit(t[0])
  {
    if t == "" || !IsXDigit(t[0]) {
      return "", t;
    }
    d, rest := TakeDigits(t[1..]);
    d := [t[0]] + d;
  }

  lemma {:induction false} TakeBlank(t: string) returns (ws: string, rest: string)
    ensures t == ws + rest && Blank(ws) && (rest != "" ==> !IsSpace(rest[0]))
  {
    if t == "" || !IsSpace(t[0]) {
      return "", t;
    }
    ws, rest := TakeBlank(t[1..]);
    ws := [t[0]] + ws;
  }

  // Groups taken from the front of a text, after those already taken.
  lemma {:induction false} TakeGroups(gs: seq<string>, t: string) returns (gs': seq<string>, rest: string)
    requires AreGroups(gs) && gs != []
    requires t != "" ==> !IsXDigit(t[0])
    ensures AreGroups(gs') && gs' != [] && Remainder(rest)
    ensures Joined(gs) + t == Joined(gs') + rest
    decreases |t|
  {
    if |t| > 1 && t[0] == ',' && IsXDigit(t[1]) {
      var d, u := TakeDigits(t[1..]);
      assert Joined(gs + [d]) == Joined(gs) + "," + d by { assert (gs + [d])[..|gs|] == gs; }
      assert t == "," + d + u;
      FourParts(Joined(gs), ",", d, u);
      gs', rest := TakeGroups(gs + [d], u);
    } else {
      gs', rest := gs, t;
    }
  }

  lemma Decomposed(t: string) returns (lead: string, gs: seq<string>, tail: string)
    ensures t == lead + Joined(gs) + tail
    ensures Blank(lead) && AreGroups(gs)
    ensures gs != [] ==> Remainder(tail)
    ensures gs == [] ==> tail == "" || (!IsXDigit(tail[0]) && !IsSpace(tail[0]))
  {
    var rest, d, u;
    lead, rest := TakeBlank(t);
    d, u := TakeDigits(rest);
    if d == "" {
      return lead, [], rest;
    }
    assert Joined([d]) == d;
    gs, tail := TakeGroups([d], u);
    assert t == lead + (Joined(gs) + tail);
  }

  // ---------------------------------------------------------------------------
  // The documented texts, and the others that are accepted
  // ---------------------------------------------------------------------------

  // White space, groups, white space, then the end of the buffer or a NUL.
  lemma ParsedWellFormed(lead: string, gs: seq<string>, trail: string, n: nat)
    requires Blank(lead) && AreGroups(gs) && gs != [] && AtEnd(trail)
    ensures Parsed(lead + Joined(gs) + trail, n) ==
            if Fit32(gs) && Meaning(gs) < Pow2(n) then Accepted(Meaning(gs)) else Overflow
  {
    assert Remainder(trail) by {
      if trail != "" && !IsSpace(trail[0]) {
        assert SkipBlank(trail) == trail;
      }
    }
    ParsedGroups(lead, gs, trail, n);
  }

  // A text with a group is accepted exactly when what follows is the end, a comma that ends the buffer, or
  // anything at all after white space that follows a group or its comma; and what was read until then fits.
  lemma AcceptedExactly(lead: string, gs: seq<string>, tail: string, n: nat)
    requires Blank(lead) && AreGroups(gs) && gs != [] && Remainder(tail)
    ensures Parsed(lead + Joined(gs) + tail, n).Accepted? <==>
            && (AtEnd(tail) || tail == "," || IsSpace(tail[0]) ||
                (tail[0] == ',' && IsSpace(tail[1]) && !AtEnd(tail[1..])))
            && Fit32(gs)
            && Meaning(GroupsRead(gs, EndingOf(tail))) < Pow2(n)
  {
    ParsedGroups(lead, gs, tail, n);
  }

  // Embedded white space: nothing is reported, and the bitmap stays empty.
  lemma EmbeddedBlankIsAccepted()
    ensures Parsed("1 2", 32) == Accepted(0)
  {
    var gs := ["1"];
    assert NumeralValue("1") == 1 by { assert Continue(0, "1") == Continue(1, "1"[1..]); }
    assert AreGroups(gs) && gs[..0] == [] && Meaning([]) == 0;
    assert "" + Joined(gs) + " 2" == "1 2";
    assert SkipBlank(" 2") == SkipBlank(" 2"[1..]) == "2";
    ParsedGroups("", gs, " 2", 32);
  }

  // A trailing comma: accepted at the end of the buffer, an error before a NUL.
  lemma TrailingComma(gs: seq<string>, n: nat)
    requires AreGroups(gs) && gs != [] && Fit32(gs) && Meaning(gs) < Pow2(n)
    ensures Parsed(Joined(gs) + ",", n) == Accepted(Meaning(gs))
    ensures Parsed(Joined(gs) + [',', NUL], n) == Invalid(Meaning(gs))
  {
    CommaEndings();
    ParsedFromFirst(gs, ",", n);
    ParsedFromFirst(gs, [',', NUL], n);
  }

  lemma CommaEndings()
    ensures Remainder(",") && EndingOf(",") == Finished
    ensures Remainder([',', NUL]) && EndingOf([',', NUL]) == Illegal(true)
  {
    var tail := [',', NUL];
    assert SkipBlank(tail) == tail && tail[1..] == [NUL] && SkipBlank([NUL]) == [NUL];
  }

  lemma ParsedFromFirst(gs: seq<string>, tail: string, n: nat)
    requires AreGroups(gs) && gs != [] && Remainder(tail)
    ensures Parsed(Joined(gs) + tail, n) == Verdict(gs, EndingOf(tail), n)
  {
    assert "" + Joined(gs) + tail == Joined(gs) + tail;
    ParsedGroups("", gs, tail, n);
  }
}
