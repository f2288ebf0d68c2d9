/** What a record's text is to look like when it is split (Archive.cpp). */
module Readings {
  import opened Chars

  const NUL := '\0'
  const ESC := 27 as char

  // What a text is to look like.

  function At(s: string, i: nat): char {
    if i < |s| then s[i] else NUL
  }

  predicate IsDigit(c: char) {
    '0' <= c <= '9'
  }

  function Digit(c: char): nat
    requires IsDigit(c)
  {
    c as nat - '0' as nat
  }

  /** Where a number of at most two digits ends. */
  function NumberEnd(s: string, i: nat): nat {
    if !IsDigit(At(s, i)) then i else if !IsDigit(At(s, i + 1)) then i + 1 else i + 2
  }

  /** The number if it stands for a colour, or else 0. */
  function Colour(s: string, i: nat): nat {
    var n := if NumberEnd(s, i) == i then 0
             else if NumberEnd(s, i) == i + 1 then Digit(At(s, i))
             else 10 * Digit(At(s, i)) + Digit(At(s, i + 1));
    if 30 <= n <= 37 || 40 <= n <= 47 then n else 0
  }

  predicate IsEscape(s: string, i: nat) {
    At(s, i) == ESC && At(s, i + 1) == '['
  }

  /** Where a further parameter ends, if there is one. */
  function ParameterEnd(s: string, i: nat): nat {
    if At(s, i) == ';' then NumberEnd(s, i + 1) else i
  }

  /** Where the parameters of an escape end: up to three numbers. */
  function ParametersEnd(s: string, i: nat): nat {
    ParameterEnd(s, ParameterEnd(s, NumberEnd(s, i + 2)))
  }

  function EscapeEnd(s: string, i: nat): nat {
    var end := ParametersEnd(s, i);
    if At(s, end) == 'm' then end + 1 else end
  }

  function FirstOf(a: nat, b: nat): nat {
    if a != 0 then a else b
  }

  /** The colour after an escape: the first one that it sets, unless there is one already. */
  function EscapeColour(s: string, i: nat, colour: nat): nat {
    var a := NumberEnd(s, i + 2);
    var b := ParameterEnd(s, a);
    if At(s, ParametersEnd(s, i)) != 'm' then colour
    else
      FirstOf(FirstOf(FirstOf(colour, Colour(s, i + 2)),
                      if At(s, a) == ';' then Colour(s, a + 1) else 0),
              if At(s, b) == ';' then Colour(s, b + 1) else 0)
  }

  function Hex(n: nat): char
    requires n < 16
  {
    if n < 10 then '0' + n as char else 'A' + (n - 10) as char
  }

  /** What is shown for a control byte. */
  function Shown(c: char): string
    requires c < 256 as char
  {
    ['[', Hex(c as nat / 16), Hex(c as nat % 16), ']']
  }

  predicate AllBytes(s: string) {
    forall i :: 0 <= i < |s| ==> s[i] < 256 as char
  }

  /** The text from position i on, as it is to be kept: printable bytes as they are, tabs as spaces, no
      line breaks and escapes, and any other control byte in hexadecimal. */
  function Clean(s: string, i: nat): string
    requires AllBytes(s)
    decreases |s| - i
  {
    if i >= |s| then []
    else if s[i] >= ' ' then [s[i]] + Clean(s, i + 1)
    else if IsNewLine(s[i]) then Clean(s, i + 1)
    else if IsEscape(s, i) then Clean(s, EscapeEnd(s, i))
    else if s[i] == '\t' then [' '] + Clean(s, i + 1)
    else Shown(s[i]) + Clean(s, i + 1)
  }

  /** The colour after the text from position i on. */
  function ColourAfter(s: string, i: nat, colour: nat): nat
    decreases |s| - i
  {
    if i >= |s| then colour
    else if IsEscape(s, i) then ColourAfter(s, EscapeEnd(s, i), EscapeColour(s, i, colour))
    else ColourAfter(s, i + 1, colour)
  }

  /** An escape takes no line break with it. */
  lemma EscapeStops(s: string, i: nat)
    requires s != [] && IsNewLine(s[|s| - 1]) && IsEscape(s, i)
    ensures i + 2 <= EscapeEnd(s, i) < |s|
  {
  }

  lemma CleanPlain(s: string, i: nat)
    requires AllBytes(s) && i < |s| && s[i] >= ' '
    ensures Clean(s, i) == [s[i]] + Clean(s, i + 1)
  {
  }

  lemma Regroup(a: string, b: string, c: string)
    ensures (a + b) + c == a + (b + c)
  {
  }

  lemma {:induction false} CleanRun(s: string, i: nat, k: nat)
    requires AllBytes(s) && i <= k <= |s| && forall j :: i <= j < k ==> s[j] >= ' '
    ensures Clean(s, i) == s[i..k] + Clean(s, k)
    decreases k - i
  {
    hide Clean;
    if i < k {
      CleanPlain(s, i);
      CleanRun(s, i + 1, k);
      Regroup([s[i]], s[i + 1..k], Clean(s, k));
      assert s[i..k] == [s[i]] + s[i + 1..k];
    } else {
      assert s[i..k] == [] && [] + Clean(s, k) == Clean(s, k);
    }
  }

  /** A text cleaned is printable. */
  lemma {:induction false} CleanIsPrintable(s: string, i: nat)
    requires AllBytes(s)
    ensures forall j :: 0 <= j < |Clean(s, i)| ==> Clean(s, i)[j] >= ' '
    decreases |s| - i
  {
    if i < |s| {
      CleanIsPrintable(s, if s[i] < ' ' && !IsNewLine(s[i]) && IsEscape(s, i) then EscapeEnd(s, i) else i + 1);
    }
  }

  // What a text says, token by token. This does not follow the loop: a text has exactly one reading.

  const DIGITS := "0123456789ABCDEF"

  /** A printable byte, a line break, a tab, a colour escape with its parameters and perhaps its final m, or another
      control byte with its two hexadecimal digits. */
  datatype Token = Plain(c: char) | Break(c: char) | Tab | Escape(ps: seq<string>, m: bool) | Control(hi: nat, lo: nat)

  function Joined(ps: seq<string>): string {
    if |ps| == 0 then [] else if |ps| == 1 then ps[0] else ps[0] + [';'] + Joined(ps[1..])
  }

  ghost function Source(t: Token): string {
    match t
    case Plain(c) => [c]
    case Break(c) => [c]
    case Tab => ['\t']
    case Escape(ps, m) => [27 as char, '['] + Joined(ps) + if m then ['m'] else []
    case Control(hi, lo) => if 16 * hi + lo < 256 then [(16 * hi + lo) as char] else []
  }

  ghost function Display(t: Token): string {
    match t
    case Plain(c) => [c]
    case Break(c) => []
    case Tab => [' ']
    case Escape(ps, m) => []
    case Control(hi, lo) => if hi < 16 && lo < 16 then ['[', DIGITS[hi], DIGITS[lo], ']'] else []
  }

  /** A decimal number of at most two digits. */
  predicate IsNumber(p: string) {
    |p| <= 2 && forall i :: 0 <= i < |p| ==> '0' <= p[i] <= '9'
  }

  function Decimal(p: string): nat
    requires IsNumber(p)
  {
    if p == [] then 0 else 10 * Decimal(p[..|p| - 1]) + (p[|p| - 1] as nat - 48)
  }

  /** The token may stand before `next`, which is NUL at the end: it takes as much as it can. */
  ghost predicate Fits(t: Token, next: char) {
    match t
    case Plain(c) => ' ' <= c
    case Break(c) => c == '\n' || c == '\r'
    case Tab => true
    case Control(hi, lo) =>
      && hi < 16 && lo < 16 && 16 * hi + lo < 32 && 16 * hi + lo !in {9, 10, 13}
      && (16 * hi + lo == 27 ==> next != '[')
    case Escape(ps, m) =>
      && 1 <= |ps| <= 3 && (forall k :: 0 <= k < |ps| ==> IsNumber(ps[k]))
      && var after := if m then 'm' else next;
      && (|ps[|ps| - 1]| < 2 ==> !('0' <= after <= '9')) && (|ps| < 3 ==> after != ';') && (!m ==> after != 'm')
  }

  /** The tokens say all of the text from position i on. */
  ghost predicate IsReading(ts: seq<Token>, s: string, i: nat)
    decreases |ts|
  {
    if ts == [] then i == |s|
    else
      var k := i + |Source(ts[0])|;
      i < k <= |s| && s[i..k] == Source(ts[0]) && Fits(ts[0], At(s, k)) && IsReading(ts[1..], s, k)
  }

  ghost function DisplayAll(ts: seq<Token>): string {
    if ts == [] then [] else Display(ts[0]) + DisplayAll(ts[1..])
  }

  /** The colour that a parameter stands for, or 0. */
  ghost function ColourOf(p: string): nat
    requires IsNumber(p)
  {
    if Decimal(p) in {30, 31, 32, 33, 34, 35, 36, 37, 40, 41, 42, 43, 44, 45, 46, 47} then Decimal(p) else 0
  }

  /** The first colour is kept. Only an escape that ends in m sets one. */
  ghost function ColourWith(colour: nat, ps: seq<string>): nat
    decreases |ps|
  {
    if colour != 0 || ps == [] || !IsNumber(ps[0]) then colour else ColourWith(ColourOf(ps[0]), ps[1..])
  }

  ghost function ColourThrough(colour: nat, ts: seq<Token>): nat
    decreases |ts|
  {
    if ts == [] then colour
    else ColourThrough(if ts[0].Escape? && ts[0].m then ColourWith(colour, ts[0].ps) else colour, ts[1..])
  }

  lemma NumberIs(s: string, i: nat, p: string)
    requires IsNumber(p) && i + |p| <= |s| && s[i..i + |p|] == p
    requires |p| < 2 ==> !IsDigit(At(s, i + |p|))
    ensures NumberEnd(s, i) == i + |p| && Colour(s, i) == ColourOf(p)
  {
    assert forall k :: 0 <= k < |p| ==> s[i + k] == p[k];
    assert |p| > 0 ==> Decimal(p[..|p| - 1]) == if |p| == 2 then p[0] as nat - 48 else 0;
  }

  /** What follows a part of the text that is known. */
  lemma PartAt(s: string, i: nat, a: string, b: string)
    requires i + |a + b| <= |s| && s[i..i + |a + b|] == a + b
    ensures s[i..i + |a|] == a && s[i + |a|..i + |a| + |b|] == b
  {
    assert s[i..i + |a|] == s[i..i + |a + b|][..|a|];
    assert s[i + |a|..i + |a| + |b|] == s[i..i + |a + b|][|a|..];
  }

  /** The parameters from number j on, read from position i. */
  ghost predicate ParametersAt(s: string, i: nat, ps: seq<string>, end: nat) {
    && ps != [] && i + |Joined(ps)| == end <= |s| && s[i..end] == Joined(ps)
    && (forall k :: 0 <= k < |ps| ==> IsNumber(ps[k]))
    && (|ps[|ps| - 1]| < 2 ==> !IsDigit(At(s, end)))
  }

  lemma JoinedStep(ps: seq<string>)
    requires ps != []
    ensures Joined(ps) == if |ps| == 1 then ps[0] else ps[0] + ([';'] + Joined(ps[1..]))
  {
    assert |ps| > 1 ==> ps[0] + [';'] + Joined(ps[1..]) == ps[0] + ([';'] + Joined(ps[1..]));
  }

  lemma OneParameter(s: string, i: nat, ps: seq<string>, end: nat)
    requires ParametersAt(s, i, ps, end)
    ensures var a := NumberEnd(s, i);
      && a == i + |ps[0]| <= end && Colour(s, i) == ColourOf(ps[0])
      && (if |ps| == 1 then a == end else At(s, a) == ';' && ParametersAt(s, a + 1, ps[1..], end))
  {
    hide NumberEnd, Colour, ColourOf, IsNumber, Joined;
    var p := ps[0];
    JoinedStep(ps);
    if |ps| > 1 {
      var rest := Joined(ps[1..]);
      PartAt(s, i, p, [';'] + rest);
      PartAt(s, i + |p|, [';'], rest);
      assert s[i + |p|] == s[i + |p|..i + |p| + 1][0] == ';';
    }
    NumberIs(s, i, p);
  }

  lemma EscapeStarts(s: string, i: nat, ps: seq<string>, m: bool)
    requires i + |Source(Escape(ps, m))| <= |s| && s[i..i + |Source(Escape(ps, m))|] == Source(Escape(ps, m))
    requires Fits(Escape(ps, m), At(s, i + |Source(Escape(ps, m))|))
    ensures var end := i + 2 + |Joined(ps)|;
      && IsEscape(s, i) && ParametersAt(s, i + 2, ps, end) && (|ps| < 3 ==> At(s, end) != ';')
      && (At(s, end) == 'm' <==> m)
  {
    hide Joined, IsNumber;
    var end, tail := i + 2 + |Joined(ps)|, if m then ['m'] else [];
    assert Source(Escape(ps, m)) == [ESC, '['] + (Joined(ps) + tail);
    PartAt(s, i, [ESC, '['], Joined(ps) + tail);
    PartAt(s, i + 2, Joined(ps), tail);
    assert s[i] == s[i..i + 2][0] == ESC && s[i + 1] == s[i..i + 2][1] == '[';
    assert m ==> s[end] == s[end..end + 1][0] == 'm';
  }

  lemma ParametersAre(s: string, i: nat, ps: seq<string>, end: nat)
    requires ParametersAt(s, i + 2, ps, end) && 1 <= |ps| <= 3 && (|ps| < 3 ==> At(s, end) != ';')
    ensures ParametersEnd(s, i) == end
    ensures var a := NumberEnd(s, i + 2); var b := ParameterEnd(s, a);
      && Colour(s, i + 2) == ColourOf(ps[0])
      && (At(s, a) == ';' <==> |ps| > 1) && (|ps| > 1 ==> Colour(s, a + 1) == ColourOf(ps[1]))
      && (At(s, b) == ';' <==> |ps| > 2) && (|ps| > 2 ==> Colour(s, b + 1) == ColourOf(ps[2]))
  {
    hide Colour, NumberEnd, ColourOf, IsNumber, Joined, ParametersAt;
    OneParameter(s, i + 2, ps, end);
    NumbersOf(s, i + 2, ps, end);
    if |ps| > 1 {
      OneParameter(s, NumberEnd(s, i + 2) + 1, ps[1..], end);
      if |ps| > 2 {
        OneParameter(s, NumberEnd(s, NumberEnd(s, i + 2) + 1) + 1, ps[1..][1..], end);
      }
    }
  }

  lemma NumbersOf(s: string, i: nat, ps: seq<string>, end: nat)
    requires ParametersAt(s, i, ps, end)
    ensures forall k :: 0 <= k < |ps| ==> IsNumber(ps[k])
  {
  }

  lemma ColourOfThree(colour: nat, ps: seq<string>)
    requires 1 <= |ps| <= 3 && forall k :: 0 <= k < |ps| ==> IsNumber(ps[k])
    ensures ColourWith(colour, ps) ==
              FirstOf(FirstOf(FirstOf(colour, ColourOf(ps[0])), if |ps| > 1 then ColourOf(ps[1]) else 0),
                      if |ps| > 2 then ColourOf(ps[2]) else 0)
  {
    var c := ColourOf(ps[0]);
    if |ps| > 1 {
      assert ps[1..][0] == ps[1];
      assert ColourWith(c, ps[1..]) == if c != 0 then c else ColourWith(ColourOf(ps[1]), ps[1..][1..]);
    }
    if |ps| > 2 {
      assert ps[1..][1..][0] == ps[2] && ps[1..][1..][1..] == [];
    }
  }

  lemma EscapeIs(s: string, i: nat, ps: seq<string>, m: bool, colour: nat)
    requires i + |Source(Escape(ps, m))| <= |s| && s[i..i + |Source(Escape(ps, m))|] == Source(Escape(ps, m))
    requires Fits(Escape(ps, m), At(s, i + |Source(Escape(ps, m))|))
    ensures IsEscape(s, i) && EscapeEnd(s, i) == i + |Source(Escape(ps, m))|
    ensures EscapeColour(s, i, colour) == if m then ColourWith(colour, ps) else colour
  {
    hide Colour, NumberEnd, ColourOf, Joined, ParametersAt, ColourWith, IsEscape, ParameterEnd, ParametersEnd;
    EscapeStarts(s, i, ps, m);
    ParametersAre(s, i, ps, i + 2 + |Joined(ps)|);
    ColourOfThree(colour, ps);
  }

  lemma HexIs(n: nat)
    requires n < 16
    ensures Hex(n) == DIGITS[n]
  {
  }

  lemma ControlIs(s: string, i: nat, hi: nat, lo: nat)
    requires AllBytes(s) && i < |s| && 16 * hi + lo < 32 && s[i] == (16 * hi + lo) as char
    requires Fits(Control(hi, lo), At(s, i + 1))
    ensures Clean(s, i) == Display(Control(hi, lo)) + Clean(s, i + 1) && !IsEscape(s, i)
  {
    HexIs(hi);
    HexIs(lo);
    assert s[i] as nat / 16 == hi && s[i] as nat % 16 == lo;
  }

  lemma BreakIs(s: string, i: nat)
    requires AllBytes(s) && i < |s| && (s[i] == '\n' || s[i] == '\r')
    ensures Clean(s, i) == [] + Clean(s, i + 1)
  {
    assert [] + Clean(s, i + 1) == Clean(s, i + 1);
  }

  lemma TabIs(s: string, i: nat)
    requires AllBytes(s) && i < |s| && s[i] == '\t'
    ensures Clean(s, i) == [' '] + Clean(s, i + 1)
  {
  }

  lemma EscapeShows(s: string, i: nat)
    requires AllBytes(s) && IsEscape(s, i)
    ensures Clean(s, i) == [] + Clean(s, EscapeEnd(s, i))
  {
    assert [] + Clean(s, EscapeEnd(s, i)) == Clean(s, EscapeEnd(s, i));
  }

  lemma ColourStep(s: string, i: nat, colour: nat)
    requires i < |s|
    ensures ColourAfter(s, i, colour) ==
              if IsEscape(s, i) then ColourAfter(s, EscapeEnd(s, i), EscapeColour(s, i, colour))
              else ColourAfter(s, i + 1, colour)
  {
  }

  lemma NotEscape(s: string, i: nat)
    requires i < |s| && (s[i] != 27 as char || At(s, i + 1) != '[')
    ensures !IsEscape(s, i)
  {
  }

  lemma TokenIs(s: string, i: nat, t: Token, colour: nat)
    requires AllBytes(s) && i + |Source(t)| <= |s| && Source(t) != [] && s[i..i + |Source(t)|] == Source(t)
    requires Fits(t, At(s, i + |Source(t)|))
    ensures Clean(s, i) == Display(t) + Clean(s, i + |Source(t)|)
    ensures ColourAfter(s, i, colour) ==
              ColourAfter(s, i + |Source(t)|, if t.Escape? && t.m then ColourWith(colour, t.ps) else colour)
  {
    hide Clean, ColourAfter, EscapeEnd, EscapeColour, ColourWith, IsEscape, Joined, IsNumber, Shown;
    assert s[i] == s[i..i + |Source(t)|][0] == Source(t)[0];
    ColourStep(s, i, colour);
    match t
    case Escape(ps, m) =>
      EscapeIs(s, i, ps, m, colour);
      EscapeShows(s, i);
    case Control(hi, lo) =>
      ControlIs(s, i, hi, lo);
    case Break(c) =>
      NotEscape(s, i);
      BreakIs(s, i);
    case Tab =>
      NotEscape(s, i);
      TabIs(s, i);
    case Plain(c) =>
      NotEscape(s, i);
      CleanPlain(s, i);
  }

  /** What is kept of a text, and the colour after it, is what its reading says. */
  lemma {:induction false} ReadingShows(s: string, i: nat, ts: seq<Token>, colour: nat)
    requires AllBytes(s) && IsReading(ts, s, i)
    ensures Clean(s, i) == DisplayAll(ts) && ColourAfter(s, i, colour) == ColourThrough(colour, ts)
    decreases |ts|
  {
    hide Clean, ColourAfter, Source, Display, Fits, ColourWith;
    if ts == [] {
      NothingLeft(s, colour);
    } else {
      var t := ts[0];
      TokenIs(s, i, t, colour);
      ReadingShows(s, i + |Source(t)|, ts[1..], if t.Escape? && t.m then ColourWith(colour, t.ps) else colour);
    }
  }

  lemma NothingLeft(s: string, colour: nat)
    requires AllBytes(s)
    ensures Clean(s, |s|) == [] && ColourAfter(s, |s|, colour) == colour
  {
  }

  lemma OneMoreToken(t: Token, ts: seq<Token>, s: string, i: nat)
    requires var k := i + |Source(t)|;
      i < k <= |s| && s[i..k] == Source(t) && Fits(t, At(s, k)) && IsReading(ts, s, k)
    ensures IsReading([t] + ts, s, i)
  {
    hide Source, Fits;
    assert ([t] + ts)[0] == t && ([t] + ts)[1..] == ts;
  }

  /** The parameters read from position i on. */
  lemma ReadParameter(s: string, i: nat) returns (p: string)
    requires i <= |s|
    ensures NumberEnd(s, i) <= |s| && p == s[i..NumberEnd(s, i)] && IsNumber(p)
    ensures |p| < 2 ==> !IsDigit(At(s, NumberEnd(s, i)))
  {
    p := s[i..NumberEnd(s, i)];
  }

  lemma {:induction false} ReadParameters(s: string, i: nat, n: nat) returns (ps: seq<string>, end: nat)
    requires i <= |s| && n > 0
    ensures 1 <= |ps| <= n && ParametersAt(s, i, ps, end) && (|ps| < n ==> At(s, end) != ';')
    decreases n
  {
    var p := ReadParameter(s, i);
    end := NumberEnd(s, i);
    if n > 1 && At(s, end) == ';' {
      var a, qs := end, [];
      qs, end := ReadParameters(s, a + 1, n - 1);
      ps := [p] + qs;
      assert ps[1..] == qs;
      assert s[i..end] == p + [';'] + s[a + 1..end];
    } else {
      ps := [p];
    }
  }

  lemma ReadEscape(s: string, i: nat) returns (t: Token)
    requires IsEscape(s, i)
    ensures var k := i + |Source(t)|;
      i < k <= |s| && s[i..k] == Source(t) && Fits(t, At(s, k))
  {
    var ps, end := ReadParameters(s, i + 2, 3);
    hide Joined;
    t := Escape(ps, At(s, end) == 'm');
    assert s[i..i + 2] == [ESC, '['];
    assert s[i..end] == s[i..i + 2] + s[i + 2..end];
    assert t.m ==> s[i..end + 1] == s[i..end] + ['m'];
  }

  lemma ReadToken(s: string, i: nat) returns (t: Token)
    requires AllBytes(s) && i < |s|
    ensures var k := i + |Source(t)|;
      i < k <= |s| && s[i..k] == Source(t) && Fits(t, At(s, k))
  {
    if IsEscape(s, i) {
      t := ReadEscape(s, i);
    } else {
      var c := s[i];
      t := if c >= ' ' then Plain(c)
           else if c == '\n' || c == '\r' then Break(c)
           else if c == '\t' then Tab
           else Control(c as nat / 16, c as nat % 16);
      assert s[i..i + 1] == [c];
    }
  }

  /** Every text has a reading. */
  lemma {:induction false} HasReading(s: string, i: nat) returns (ts: seq<Token>)
    requires AllBytes(s) && i <= |s|
    ensures IsReading(ts, s, i)
    decreases |s| - i
  {
    hide Source, Fits;
    if i == |s| {
      ts := [];
    } else {
      var t := ReadToken(s, i);
      var more := HasReading(s, i + |Source(t)|);
      OneMoreToken(t, more, s, i);
      ts := [t] + more;
    }
  }
}
