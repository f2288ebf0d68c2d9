/** Splitting the text of a record at line breaks, colour escapes and control bytes (Archive.cpp). */
module Splitting {
  import opened Chars
  import opened Readings
  import opened Traces

  // Pieces longer than a node's chunk may be.

  /** What is kept of a piece that is added in parts of 1600 bytes. */
  function Kept(piece: string): string
    decreases |piece|
  {
    if |piece| <= MAX_LOG_LEN then Body(piece) else Body(piece[..MAX_LOG_LEN]) + Kept(piece[MAX_LOG_LEN..])
  }

  /** If only the last byte may be a line break nothing else is lost. */
  lemma {:induction false} KeptIsBody(piece: string)
    requires forall i :: 0 <= i < |piece| - 1 ==> piece[i] != '\n' && piece[i] != '\r'
    ensures Kept(piece) == Body(piece)
    ensures Kept(piece) == if piece != [] && (piece[|piece| - 1] == '\n' || piece[|piece| - 1] == '\r')
                           then piece[..|piece| - 1] else piece
    decreases |piece|
  {
    if |piece| > MAX_LOG_LEN {
      KeptIsBody(piece[MAX_LOG_LEN..]);
      assert piece == piece[..MAX_LOG_LEN] + piece[MAX_LOG_LEN..];
    }
  }

  /** Position i is the last one of the text or of a part of 1600 bytes. */
  predicate EndsPart(s: string, i: nat) {
    i + 1 == |s| || i % 1600 == 1599
  }

  /** The text from position i on without a line break at its end or at the end of a part of 1600 bytes. */
  ghost function LessBreaks(s: string, i: nat): string
    decreases |s| - i
  {
    if i >= |s| then []
    else
      var dropped := (s[i] == '\n' || s[i] == '\r') && EndsPart(s, i);
      (if dropped then [] else [s[i]]) + LessBreaks(s, i + 1)
  }

  lemma {:induction false} KeepsRun(s: string, i: nat, k: nat)
    requires i <= k <= |s| && forall j: nat :: i <= j < k ==> !EndsPart(s, j)
    ensures LessBreaks(s, i) == s[i..k] + LessBreaks(s, k)
    decreases k - i
  {
    if i < k {
      KeepsRun(s, i + 1, k);
      assert s[i..k] == [s[i]] + s[i + 1..k];
      Regroup([s[i]], s[i + 1..k], LessBreaks(s, k));
    } else {
      assert s[i..k] == [] && [] + LessBreaks(s, k) == LessBreaks(s, k);
    }
  }

  lemma LastKept(s: string, i: nat)
    requires i < |s| && EndsPart(s, i)
    ensures LessBreaks(s, i) == (if IsNewLine(s[i]) then [] else [s[i]]) + LessBreaks(s, i + 1)
  {
  }

  lemma OnePart(s: string, i: nat, k: nat)
    requires i < k <= |s| && i % 1600 == 0 && (k == i + 1600 || (k == |s| && k < i + 1600))
    ensures EndsPart(s, k - 1) && forall j: nat :: i <= j < k - 1 ==> !EndsPart(s, j)
  {
    forall j: nat | i <= j < k - 1
      ensures !EndsPart(s, j)
    {
      assert j == 1600 * (i / 1600) + (j - i);
    }
  }

  lemma PartBody(s: string, i: nat, k: nat)
    requires i < k <= |s|
    ensures Body(s[i..k]) == s[i..k - 1] + if IsNewLine(s[k - 1]) then [] else [s[k - 1]]
  {
    assert s[i..k][|s[i..k]| - 1] == s[k - 1] && s[i..k][..k - 1 - i] == s[i..k - 1];
    assert s[i..k] == s[i..k - 1] + [s[k - 1]];
  }

  /** One part of the piece, from i to k. */
  lemma PartKept(s: string, i: nat, k: nat)
    requires i < k <= |s| && i % 1600 == 0 && (k == i + 1600 || (k == |s| && k < i + 1600))
    ensures LessBreaks(s, i) == Body(s[i..k]) + LessBreaks(s, k)
  {
    hide *;
    OnePart(s, i, k);
    KeepsRun(s, i, k - 1);
    LastKept(s, k - 1);
    PartBody(s, i, k);
    Regroup(s[i..k - 1], if IsNewLine(s[k - 1]) then [] else [s[k - 1]], LessBreaks(s, k));
  }

  /** Of a long piece the line breaks at its end and at the ends of its parts are lost, and nothing else. */
  lemma {:induction false} KeptIs(s: string, i: nat)
    requires i <= |s| && i % 1600 == 0
    ensures Kept(s[i..]) == LessBreaks(s, i)
    decreases |s| - i
  {
    hide LessBreaks;
    var rest := s[i..];
    if |rest| > 1600 {
      PartKept(s, i, i + 1600);
      KeptIs(s, i + 1600);
      assert rest[..1600] == s[i..i + 1600] && rest[1600..] == s[i + 1600..];
    } else if |rest| > 0 {
      PartKept(s, i, |s|);
      NothingLess(s);
      assert rest == s[i..|s|] && Body(rest) + [] == Body(rest);
    } else {
      NothingLess(s);
    }
  }

  lemma NothingLess(s: string)
    ensures LessBreaks(s, |s|) == []
  {
  }

  lemma KeptStep(text: string, piece: string, done: nat, cb: nat)
    requires done < |piece| && cb == if |piece| - done >= MAX_LOG_LEN then MAX_LOG_LEN else |piece| - done
    ensures (text + Body(piece[done..done + cb])) + Kept(piece[done + cb..]) == text + Kept(piece[done..])
  {
    var rest := piece[done..];
    assert rest[..cb] == piece[done..done + cb] && rest[cb..] == piece[done + cb..];
    if |rest| <= MAX_LOG_LEN {
      assert rest[..cb] == rest && rest[cb..] == [];
    }
  }

  lemma NothingKept()
    ensures Kept([]) == []
  {
  }

  /** Add the next part of a long piece. */
  method AddPart(t: ThreadNode, apart: bool, piece: string, done: nat) returns (ok: bool, cb: nat)
    requires t.Valid() && done < |piece|
    modifies t, t.latestTrace, t.chunks
    ensures t.Valid() && fresh(t.chunks - old(t.chunks))
    ensures t.latestTrace == old(t.latestTrace) || fresh(t.latestTrace)
    ensures 0 < cb <= |piece| - done
    ensures ok ==> t.text + Kept(piece[done + cb..]) == old(t.text) + Kept(piece[done..])
  {
    cb := if |piece| - done >= MAX_LOG_LEN then MAX_LOG_LEN else |piece| - done;
    KeptStep(t.text, piece, done, cb);
    ok := t.AddTrace(apart, NUL, piece[done..done + cb]);
  }

  method AddTraceLoop(t: ThreadNode, apart: bool, piece: string) returns (ok: bool)
    requires t.Valid()
    modifies t, t.latestTrace, t.chunks
    ensures t.Valid() && fresh(t.chunks - old(t.chunks))
    ensures t.latestTrace == old(t.latestTrace) || fresh(t.latestTrace)
    ensures ok ==> t.text == old(t.text) + Kept(piece)
  {
    hide Kept, ThreadNode.Valid;
    ok := true;
    var done := 0;
    assert piece[done..] == piece;
    while done < |piece|
      invariant done <= |piece| && t.Valid() && fresh(t.chunks - old(t.chunks))
      invariant t.latestTrace == old(t.latestTrace) || fresh(t.latestTrace)
      invariant ok ==> t.text + Kept(piece[done..]) == old(t.text) + Kept(piece)
    {
      var added, cb := AddPart(t, apart, piece, done);
      ok := ok && added;
      done := done + cb;
    }
    assert piece[done..] == [] && t.text + [] == t.text;
    NothingKept();
  }

  /** Add a piece, in parts if it is long. */
  method Add(t: ThreadNode, apart: bool, before: char, piece: string) returns (ok: bool)
    requires t.Valid()
    modifies t, t.latestTrace, t.chunks
    ensures t.Valid() && fresh(t.chunks - old(t.chunks))
    ensures t.latestTrace == old(t.latestTrace) || fresh(t.latestTrace)
    ensures ok ==> t.text == old(t.text) + Kept(piece)
  {
    if |piece| < MAX_LOG_LEN {
      ok := t.AddTrace(apart, before, piece);
    } else {
      ok := AddTraceLoop(t, apart, piece);
    }
  }

  // The loop over a record's text s. Its buffer ends with a NUL; what was read of it has spaces for tabs.

  function Untab(c: char): char {
    if c == '\t' then ' ' else c
  }

  ghost predicate IsText(s: string) {
    s != [] && IsNewLine(s[|s| - 1]) && AllBytes(s)
  }

  /** The text is read up to `end`, and what stands from `start` on is still to be added. */
  ghost predicate ReadTo(buf: string, s: string, start: nat, end: nat) {
    && start <= end <= |s| && |buf| == |s| + 1 && buf[|s|] == NUL
    && (forall j :: 0 <= j < |s| ==> buf[j] == if j < end then Untab(s[j]) else s[j])
    && (forall j :: start <= j < end ==> buf[j] >= ' ')
  }

  /** What is still to come: the rest of the present piece and of the text. */
  ghost function ToCome(buf: string, s: string, start: nat, end: nat): string
    requires ReadTo(buf, s, start, end) && AllBytes(s)
  {
    buf[start..end] + Clean(s, end)
  }

  lemma ReadPrintable(buf: string, s: string, start: nat, end: nat, k: nat)
    requires ReadTo(buf, s, start, end) && AllBytes(s) && end <= k <= |s| && forall j :: end <= j < k ==> s[j] >= ' '
    ensures ReadTo(buf, s, start, k) && ToCome(buf, s, start, k) == ToCome(buf, s, start, end)
  {
    CleanRun(s, end, k);
    assert s[end..k] == buf[end..k];
    assert buf[start..k] == buf[start..end] + buf[end..k];
  }

  lemma ReadTab(buf: string, s: string, start: nat, end: nat)
    requires ReadTo(buf, s, start, end) && AllBytes(s) && end < |s| && s[end] == '\t'
    ensures ReadTo(buf[end := ' '], s, start, end + 1)
    ensures ToCome(buf[end := ' '], s, start, end + 1) == ToCome(buf, s, start, end)
  {
    assert buf[end := ' '][start..end + 1] == buf[start..end] + [' '];
    TabInText(s, end, buf[start..end]);
  }

  lemma TabInText(s: string, i: nat, before: string)
    requires AllBytes(s) && i < |s| && s[i] == '\t'
    ensures (before + [' ']) + Clean(s, i + 1) == before + Clean(s, i)
  {
    assert before + ([' '] + Clean(s, i + 1)) == (before + [' ']) + Clean(s, i + 1);
  }

  /** A piece without line breaks is kept as it is, with or without one line break behind it. */
  lemma PlainKept(piece: string, c: char)
    requires (forall i :: 0 <= i < |piece| ==> piece[i] >= ' ') && IsNewLine(c)
    ensures Kept(piece) == piece && Kept(piece + [c]) == piece
  {
    hide Kept, Body;
    KeptIsBody(piece);
    KeptIsBody(piece + [c]);
    assert (piece + [c])[..|piece|] == piece && (piece + [c])[|piece|] == c;
  }

  lemma PieceKept(buf: string, s: string, start: nat, end: nat)
    requires ReadTo(buf, s, start, end)
    ensures Kept(buf[start..end]) == buf[start..end]
    ensures end < |s| && IsNewLine(s[end]) ==> Kept(buf[start..end + 1]) == buf[start..end]
  {
    hide Kept;
    assert forall i :: 0 <= i < end - start ==> buf[start..end][i] == buf[start + i];
    PlainKept(buf[start..end], if end < |s| && IsNewLine(s[end]) then s[end] else '\n');
    assert end < |s| ==> buf[start..end + 1] == buf[start..end] + [s[end]];
  }

  lemma {:induction false} SkipsBreaks(s: string, i: nat, k: nat)
    requires AllBytes(s) && i <= k <= |s| && forall j :: i <= j < k ==> IsNewLine(s[j])
    ensures Clean(s, i) == Clean(s, k)
    ensures forall colour :: ColourAfter(s, i, colour) == ColourAfter(s, k, colour)
    decreases k - i
  {
    if i < k {
      SkipsBreaks(s, i + 1, k);
    }
  }

  lemma {:induction false} SkipsPlain(s: string, i: nat, k: nat, colour: nat)
    requires i <= k <= |s| && forall j :: i <= j < k ==> s[j] >= ' '
    ensures ColourAfter(s, i, colour) == ColourAfter(s, k, colour)
    decreases k - i
  {
    if i < k {
      SkipsPlain(s, i + 1, k, colour);
    }
  }

  /** Add the present piece, with or without the line break behind it. */
  method AddPiece(t: ThreadNode, apart: bool, trace: array<char>, ghost s: string, start: nat, end: nat,
                  withBreak: bool) returns (ok: bool)
    requires t.Valid() && AllBytes(s) && ReadTo(trace[..], s, start, end)
    requires withBreak ==> end < |s| && IsNewLine(s[end])
    modifies t, t.latestTrace, t.chunks
    ensures t.Valid() && fresh(t.chunks - old(t.chunks))
    ensures t.latestTrace == old(t.latestTrace) || fresh(t.latestTrace)
    ensures ReadTo(trace[..], s, end, end)
    ensures ok ==> t.text + Clean(s, end) == old(t.text) + ToCome(trace[..], s, start, end)
  {
    hide ThreadNode.Valid, Clean, Kept;
    PieceKept(trace[..], s, start, end);
    ghost var piece := trace[start..end];
    assert (t.text + piece) + Clean(s, end) == t.text + (piece + Clean(s, end));
    ok := Add(t, apart, NUL, trace[start..if withBreak then end + 1 else end]);
  }

  method SkipNewLines(trace: array<char>, ghost s: string, end: nat) returns (k: nat)
    requires IsText(s) && ReadTo(trace[..], s, end, end) && end < |s| && IsNewLine(s[end])
    ensures end < k && ReadTo(trace[..], s, k, k) && Clean(s, k) == Clean(s, end)
    ensures forall colour :: ColourAfter(s, end, colour) == ColourAfter(s, k, colour)
  {
    k := end;
    while IsNewLine(trace[k])
      invariant end <= k <= |s| && (k == end ==> IsNewLine(trace[k]))
      invariant forall j :: end <= j < k ==> IsNewLine(s[j])
      decreases |s| - k
    {
      k := k + 1;
    }
    SkipsBreaks(s, end, k);
    SkipsReading(trace[..], s, end, k);
  }

  lemma SkipsReading(buf: string, s: string, end: nat, k: nat)
    requires ReadTo(buf, s, end, end) && end <= k <= |s| && forall j :: end <= j < k ==> s[j] != '\t'
    ensures ReadTo(buf, s, k, k)
  {
  }

  /** The buffer still has the text from position i on. */
  ghost predicate Unread(buf: string, s: string, i: nat) {
    |buf| == |s| + 1 && forall j :: i <= j <= |s| ==> buf[j] == At(s, j)
  }

  method ParceCollor(trace: array<char>, ghost s: string, i: nat) returns (color: nat, k: nat)
    requires Unread(trace[..], s, i) && i <= |s|
    ensures k == NumberEnd(s, i) <= |s| && color == Colour(s, i)
  {
    color, k := 0, i;
    if IsDigit(trace[k]) {
      color := Digit(trace[k]);
      k := k + 1;
      if IsDigit(trace[k]) {
        color := 10 * color + Digit(trace[k]);
        k := k + 1;
      }
      if !(30 <= color <= 37 || 40 <= color <= 47) {
        color := 0;
      }
    }
  }

  /** A further parameter of an escape, if there is one. */
  method ParceParameter(trace: array<char>, ghost s: string, i: nat) returns (color: nat, k: nat)
    requires Unread(trace[..], s, i) && i <= |s|
    ensures k == ParameterEnd(s, i) <= |s| && color == if At(s, i) == ';' then Colour(s, i + 1) else 0
  {
    hide Colour, NumberEnd;
    color, k := 0, i;
    if trace[k] == ';' {
      k := k + 1;
      color, k := ParceCollor(trace, s, k);
    }
  }

  /** Read an escape. Only one that ends in `m` sets the colour. */
  method SkipEscape(trace: array<char>, ghost s: string, i: nat, color0: nat) returns (k: nat, color: nat)
    requires Unread(trace[..], s, i) && IsEscape(s, i) && IsText(s)
    ensures k == EscapeEnd(s, i) && color == EscapeColour(s, i, color0)
  {
    EscapeStops(s, i);
    hide Colour, NumberEnd, ParameterEnd, IsText;
    var c1, c2, c3;
    k := i + 2;
    c1, k := ParceCollor(trace, s, k);
    c2, k := ParceParameter(trace, s, k);
    c3, k := ParceParameter(trace, s, k);
    color := color0;
    if trace[k] == 'm' {
      k := k + 1;
      if color == 0 { color := c1; }
      if color == 0 { color := c2; }
      if color == 0 { color := c3; }
    }
  }

  lemma EscapeIsPlain(s: string, i: nat)
    requires IsText(s) && IsEscape(s, i)
    ensures i + 2 <= EscapeEnd(s, i) < |s| && forall j :: i <= j < EscapeEnd(s, i) ==> s[j] != '\t'
  {
  }

  lemma NothingPending(buf: string, s: string, k: nat)
    requires ReadTo(buf, s, k, k) && AllBytes(s)
    ensures ToCome(buf, s, k, k) == Clean(s, k)
  {
    assert buf[k..k] == [] && [] + Clean(s, k) == Clean(s, k);
  }

  /** Add the present piece if there is one. */
  method AddPending(t: ThreadNode, apart: bool, trace: array<char>, ghost s: string, start: nat, end: nat)
    returns (ok: bool)
    requires t.Valid() && AllBytes(s) && ReadTo(trace[..], s, start, end)
    modifies t, t.latestTrace, t.chunks
    ensures t.Valid() && fresh(t.chunks - old(t.chunks))
    ensures t.latestTrace == old(t.latestTrace) || fresh(t.latestTrace)
    ensures ReadTo(trace[..], s, end, end)
    ensures ok ==> t.text + Clean(s, end) == old(t.text) + ToCome(trace[..], s, start, end)
  {
    ok := true;
    if end > start {
      ok := AddPiece(t, apart, trace, s, start, end, false);
    } else {
      NothingPending(trace[..], s, end);
    }
  }

  method AddShown(t: ThreadNode, apart: bool, ghost s: string, ghost end: nat, c: char) returns (ok: bool)
    requires t.Valid() && AllBytes(s) && end < |s| && c == s[end] < ' ' && !IsNewLine(c) && c != '\t'
    requires !IsEscape(s, end)
    modifies t, t.latestTrace, t.chunks
    ensures t.Valid() && fresh(t.chunks - old(t.chunks))
    ensures t.latestTrace == old(t.latestTrace) || fresh(t.latestTrace)
    ensures ok ==> t.text + Clean(s, end + 1) == old(t.text) + Clean(s, end)
  {
    KeptIsBody(Shown(c));
    assert (t.text + Shown(c)) + Clean(s, end + 1) == t.text + (Shown(c) + Clean(s, end + 1));
    ok := Add(t, apart, NUL, Shown(c));
  }

  /** At a line break: add the piece with it, and read all line breaks that follow. */
  method EndAtBreak(t: ThreadNode, apart: bool, trace: array<char>, ghost s: string, start: nat, end: nat)
    returns (ok: bool, k: nat)
    requires t.Valid() && IsText(s) && ReadTo(trace[..], s, start, end) && end < |s| && IsNewLine(s[end])
    modifies t, t.latestTrace, t.chunks
    ensures t.Valid() && fresh(t.chunks - old(t.chunks))
    ensures t.latestTrace == old(t.latestTrace) || fresh(t.latestTrace)
    ensures end < k && ReadTo(trace[..], s, k, k)
    ensures ok ==> t.text + ToCome(trace[..], s, k, k) == old(t.text) + ToCome(trace[..], s, start, end)
    ensures forall colour :: ColourAfter(s, end, colour) == ColourAfter(s, k, colour)
  {
    ok := AddPiece(t, apart, trace, s, start, end, true);
    k := SkipNewLines(trace, s, end);
    NothingPending(trace[..], s, k);
  }

  /** At an escape: read it, then add the piece before it. */
  method EndAtEscape(t: ThreadNode, apart: bool, trace: array<char>, ghost s: string, start: nat, end: nat, color0: nat)
    returns (ok: bool, k: nat, color: nat)
    requires t.Valid() && IsText(s) && ReadTo(trace[..], s, start, end) && end < |s| && IsEscape(s, end)
    modifies t, t.latestTrace, t.chunks
    ensures t.Valid() && fresh(t.chunks - old(t.chunks))
    ensures t.latestTrace == old(t.latestTrace) || fresh(t.latestTrace)
    ensures end < k < |s| && ReadTo(trace[..], s, k, k)
    ensures ok ==> t.text + ToCome(trace[..], s, k, k) == old(t.text) + ToCome(trace[..], s, start, end)
    ensures ColourAfter(s, end, color0) == ColourAfter(s, k, color)
  {
    EscapeIsPlain(s, end);
    k, color := SkipEscape(trace, s, end, color0);
    ok := AddPending(t, apart, trace, s, start, end);
    SkipsReading(trace[..], s, end, k);
    NothingPending(trace[..], s, k);
  }

  /** At any other control byte: add the piece before it, and then what is shown for the byte. */
  method EndAtControl(t: ThreadNode, apart: bool, trace: array<char>, ghost s: string, start: nat, end: nat)
    returns (ok: bool)
    requires t.Valid() && IsText(s) && ReadTo(trace[..], s, start, end) && end < |s|
    requires s[end] < ' ' && !IsNewLine(s[end]) && s[end] != '\t' && !IsEscape(s, end)
    modifies t, t.latestTrace, t.chunks
    ensures t.Valid() && fresh(t.chunks - old(t.chunks))
    ensures t.latestTrace == old(t.latestTrace) || fresh(t.latestTrace)
    ensures ReadTo(trace[..], s, end + 1, end + 1)
    ensures ok ==> t.text + ToCome(trace[..], s, end + 1, end + 1) == old(t.text) + ToCome(trace[..], s, start, end)
  {
    ok := AddPending(t, apart, trace, s, start, end);
    var shown := AddShown(t, apart, s, end, trace[end]);
    SkipsReading(trace[..], s, end, end + 1);
    ok := ok && shown;
    NothingPending(trace[..], s, end + 1);
  }

  method PutSpace(trace: array<char>, ghost s: string, start: nat, end: nat)
    requires IsText(s) && ReadTo(trace[..], s, start, end) && end < |s| && s[end] == '\t'
    modifies trace
    ensures ReadTo(trace[..], s, start, end + 1)
    ensures ToCome(trace[..], s, start, end + 1) == old(ToCome(trace[..], s, start, end))
  {
    ReadTab(trace[..], s, start, end);
    trace[end] := ' ';
    assert trace[..] == old(trace[..])[end := ' '];
  }

  method SkipPrintable(trace: array<char>, ghost s: string, start: nat, end: nat) returns (k: nat)
    requires IsText(s) && ReadTo(trace[..], s, start, end) && end < |s|
    ensures end <= k < |s| && s[k] < ' '
    ensures ReadTo(trace[..], s, start, k) && ToCome(trace[..], s, start, k) == ToCome(trace[..], s, start, end)
    ensures forall colour :: ColourAfter(s, end, colour) == ColourAfter(s, k, colour)
  {
    k := end;
    while trace[k] >= ' '
      invariant end <= k < |s| && forall j :: end <= j < k ==> s[j] >= ' '
      decreases |s| - k
    {
      k := k + 1;
    }
    ReadPrintable(trace[..], s, start, end, k);
    forall colour ensures ColourAfter(s, end, colour) == ColourAfter(s, k, colour) {
      SkipsPlain(s, end, k, colour);
    }
  }

  /** Deal with the control byte that ends a run of printable ones. */
  method AtControlByte(t: ThreadNode, apart: bool, trace: array<char>, ghost s: string, start0: nat, end0: nat,
                       color0: nat)
    returns (ok: bool, start: nat, end: nat, color: nat, oldColor: nat)
    requires t.Valid() && IsText(s) && ReadTo(trace[..], s, start0, end0) && end0 < |s| && s[end0] < ' '
    modifies t, t.latestTrace, t.chunks, trace
    ensures t.Valid() && fresh(t.chunks - old(t.chunks))
    ensures t.latestTrace == old(t.latestTrace) || fresh(t.latestTrace)
    ensures end0 < end && ReadTo(trace[..], s, start, end) && oldColor == color && (end == |s| ==> start == end)
    ensures ok ==> t.text + ToCome(trace[..], s, start, end) == old(t.text) + old(ToCome(trace[..], s, start0, end0))
    ensures ColourAfter(s, end, color) == ColourAfter(s, end0, color0)
  {
    ColourStep(s, end0, color0);
    hide ThreadNode.Valid, Clean, ColourAfter, EscapeEnd, EscapeColour, Kept, ToCome;
    ok, start, end, color, oldColor := true, start0, end0, color0, color0;
    assert trace[end] == s[end] && trace[end + 1] == At(s, end + 1);
    if trace[end] == '\n' || trace[end] == '\r' {
      oldColor := color;
      ok, end := EndAtBreak(t, apart, trace, s, start, end);
      start := end;
    } else if trace[end] == ESC && trace[end + 1] == '[' {
      ok, end, color := EndAtEscape(t, apart, trace, s, start, end, color);
      oldColor := color;
      start := end;
    } else if trace[end] == '\t' {
      PutSpace(trace, s, start, end);
      end := end + 1;
    } else {
      ok := EndAtControl(t, apart, trace, s, start, end);
      start := end + 1;
      end := end + 1;
    }
  }

  /** One round of the loop: read on to the next control byte, and deal with it. */
  method Round(t: ThreadNode, apart: bool, trace: array<char>, ghost s: string, start0: nat, end0: nat, color0: nat)
    returns (ok: bool, start: nat, end: nat, color: nat, oldColor: nat)
    requires t.Valid() && IsText(s) && ReadTo(trace[..], s, start0, end0) && end0 < |s|
    modifies t, t.latestTrace, t.chunks, trace
    ensures t.Valid() && fresh(t.chunks - old(t.chunks))
    ensures t.latestTrace == old(t.latestTrace) || fresh(t.latestTrace)
    ensures end0 < end && ReadTo(trace[..], s, start, end) && oldColor == color && (end == |s| ==> start == end)
    ensures ok ==> t.text + ToCome(trace[..], s, start, end) == old(t.text) + old(ToCome(trace[..], s, start0, end0))
    ensures ColourAfter(s, end, color) == ColourAfter(s, end0, color0)
  {
    end := SkipPrintable(trace, s, start0, end0);
    ok, start, end, color, oldColor := AtControlByte(t, apart, trace, s, start0, end, color0);
  }

  /** Add the text of a record to its thread. It must end in a line break and be followed by a NUL, which
      the unguarded scans rely on. The thread's text grows by the cleaned text if the memory suffices. */
  method AddRecord(t: ThreadNode, apart: bool, trace: array<char>, cb_trace: nat, color0: nat)
    returns (ok: bool, color: nat)
    requires t.Valid() && trace.Length == cb_trace + 1 && trace[cb_trace] == NUL && IsText(trace[..cb_trace])
    modifies t, t.latestTrace, t.chunks, trace
    ensures t.Valid() && fresh(t.chunks - old(t.chunks))
    ensures t.latestTrace == old(t.latestTrace) || fresh(t.latestTrace)
    ensures ok ==> t.text == old(t.text) + Clean(old(trace[..cb_trace]), 0)
    ensures color == ColourAfter(old(trace[..cb_trace]), 0, color0)
    ensures forall ts {:trigger IsReading(ts, old(trace[..cb_trace]), 0)} ::
              IsReading(ts, old(trace[..cb_trace]), 0) ==>
              (ok ==> t.text == old(t.text) + DisplayAll(ts)) && color == ColourThrough(color0, ts)
    ensures forall j :: 0 <= j < cb_trace ==> trace[j] == if old(trace[j]) == '\t' then ' ' else old(trace[j])
  {
    ghost var s := trace[..cb_trace];
    var start, end, oldColor := 0, 0, color0;
    ok, color := true, color0;
    NothingPending(trace[..], s, 0);
    while end < cb_trace
      invariant t.Valid() && fresh(t.chunks - old(t.chunks))
      invariant (t.latestTrace == old(t.latestTrace) || fresh(t.latestTrace))
      invariant ReadTo(trace[..], s, start, end) && oldColor == color && (end == cb_trace ==> start == end)
      invariant ok ==> t.text + ToCome(trace[..], s, start, end) == old(t.text) + Clean(s, 0)
      invariant ColourAfter(s, end, color) == ColourAfter(s, 0, color0)
      decreases cb_trace - end
    {
      var added: bool;
      added, start, end, color, oldColor := Round(t, apart, trace, s, start, end, color);
      ok := ok && added;
    }
    if end > start {
      assert false;
    } else if oldColor != color {
      assert false;
    }
    assert t.text + [] == t.text;
    forall ts | IsReading(ts, s, 0)
      ensures Clean(s, 0) == DisplayAll(ts) && ColourAfter(s, 0, color0) == ColourThrough(color0, ts)
    {
      ReadingShows(s, 0, ts, color0);
    }
  }

  /** A record whose colours were taken out before, or that comes from an import, is added as it is. */
  method AddTraceOf(t: ThreadNode, adb: bool, fromImport: bool, parsed: bool, before: char, trace: array<char>,
                    cb_trace: nat, color0: nat)
    returns (ok: bool, color: nat)
    requires t.Valid() && trace.Length == cb_trace + 1
    requires fromImport || parsed || (trace[cb_trace] == NUL && IsText(trace[..cb_trace]))
    modifies t, t.latestTrace, t.chunks, trace
    ensures t.Valid() && fresh(t.chunks - old(t.chunks))
    ensures t.latestTrace == old(t.latestTrace) || fresh(t.latestTrace)
    ensures ok && (fromImport || parsed) ==> t.text == old(t.text) + Kept(old(trace[..cb_trace]))
    ensures ok && !fromImport && !parsed ==> t.text == old(t.text) + Clean(old(trace[..cb_trace]), 0)
    ensures ok && (fromImport || parsed) ==> t.text == old(t.text) + LessBreaks(old(trace[..cb_trace]), 0)
    ensures color == if fromImport || parsed then color0 else ColourAfter(old(trace[..cb_trace]), 0, color0)
  {
    if fromImport || parsed {
      ok := Add(t, adb || fromImport, before, trace[..cb_trace]);
      KeptIs(trace[..cb_trace], 0);
      assert trace[..cb_trace][0..] == trace[..cb_trace];
      color := color0;
    } else {
      ok, color := AddRecord(t, adb || fromImport, trace, cb_trace, color0);
    }
  }

  // Any number of records for any number of threads.

  /** A record: which thread it belongs to, its flags, and its text in a buffer of its own. */
  datatype Record = Record(thread: nat, adb: bool, fromImport: bool, parsed: bool, before: char, trace: array<char>,
                           cb_trace: nat, color: nat)

  ghost predicate Readable(r: Record)
    reads r.trace
  {
    && r.trace.Length == r.cb_trace + 1
    && (r.fromImport || r.parsed || (r.trace[r.cb_trace] == NUL && IsText(r.trace[..r.cb_trace])))
  }

  /** What the record adds to its thread's text. */
  ghost function TextOf(r: Record): string
    requires Readable(r)
    reads r.trace
  {
    if r.fromImport || r.parsed then Kept(r.trace[..r.cb_trace]) else Clean(r.trace[..r.cb_trace], 0)
  }

  /** The texts of the records of thread number k, one after the other. */
  ghost function TextShare(run: seq<Record>, texts: seq<string>, k: nat): string
    requires |texts| == |run|
  {
    if run == [] then []
    else
      var n := |run| - 1;
      TextShare(run[..n], texts[..n], k) + if run[n].thread == k then texts[n] else []
  }

  /** Threads share neither nodes nor chunks. */
  lemma ThreadsApart(t: ThreadNode, u: ThreadNode)
    requires t.Valid() && u.Valid() && t != u
    ensures t.chunks !! u.chunks && (t.latestTrace != null ==> t.latestTrace !in u.nodes)
  {
    assert t.Own() && u.Own();
  }

  /** Add one record's text. The other threads stay as they are. */
  method AddRecordOf(threads: seq<ThreadNode>, r: Record) returns (ok: bool)
    requires r.thread < |threads| && Readable(r) && forall th {:trigger th in threads} :: th in threads ==> th.Valid()
    modifies threads[r.thread], threads[r.thread].latestTrace, threads[r.thread].chunks, r.trace
    ensures var t := threads[r.thread];
      && fresh(t.chunks - old(t.chunks)) && (t.latestTrace == old(t.latestTrace) || fresh(t.latestTrace))
      && (ok ==> t.text == old(t.text) + old(TextOf(r)))
    ensures forall th {:trigger th in threads} :: th in threads ==> th.Valid()
    ensures forall th {:trigger th in threads} :: th in threads && th != threads[r.thread] ==>
              th.text == old(th.text) && th.latestTrace == old(th.latestTrace) && th.chunks == old(th.chunks)
  {
    var t := threads[r.thread];
    assert t in threads;
    forall th {:trigger th in threads} | th in threads && th != t
      ensures t.chunks !! th.chunks && (t.latestTrace != null ==> t.latestTrace !in th.nodes)
    {
      ThreadsApart(t, th);
    }
    hide ThreadNode.Valid, Clean, Kept, IsText;
    var color;
    ok, color := AddTraceOf(t, r.adb, r.fromImport, r.parsed, r.before, r.trace, r.cb_trace, r.color);
  }

  ghost function LatestOf(threads: seq<ThreadNode>): set<TraceNode>
    reads threads`latestTrace
  {
    set th | th in threads && th.latestTrace != null :: th.latestTrace
  }

  ghost function ChunksOf(threads: seq<ThreadNode>): set<TraceChunk>
    reads threads`chunks
  {
    set th, c | th in threads && c in th.chunks :: c
  }

  function Buffers(run: seq<Record>): set<array<char>> {
    set r | r in run :: r.trace
  }

  lemma ShareNone(run: seq<Record>, texts: seq<string>)
    requires |texts| == |run|
    ensures forall k: nat :: TextShare(run[..0], texts[..0], k) == []
  {
  }

  lemma ShareStep(run: seq<Record>, texts: seq<string>, i: nat)
    requires i < |run| == |texts|
    ensures forall k: nat :: TextShare(run[..i + 1], texts[..i + 1], k) ==
              TextShare(run[..i], texts[..i], k) + if run[i].thread == k then texts[i] else []
  {
    assert run[..i + 1][..i] == run[..i] && texts[..i + 1][..i] == texts[..i];
  }

  lemma InSets(threads: seq<ThreadNode>, run: seq<Record>)
    ensures forall i {:trigger run[i]} :: 0 <= i < |run| ==> run[i].trace in Buffers(run)
    ensures forall th {:trigger th in threads} :: th in threads ==>
              (th.latestTrace != null ==> th.latestTrace in LatestOf(threads)) && th.chunks <= ChunksOf(threads)
  {
  }

  /** Whatever records arrive for any number of threads, in any order: if the memory suffices, each thread's
      text grows by what its own records add, in order of arrival. */
  method AddRecords(threads: seq<ThreadNode>, run: seq<Record>, ghost texts: seq<string>) returns (ok: bool)
    requires forall j, k :: 0 <= j < k < |threads| ==> threads[j] != threads[k]
    requires forall th {:trigger th in threads} :: th in threads ==> th.Valid()
    requires forall i, j :: 0 <= i < j < |run| ==> run[i].trace != run[j].trace
    requires |texts| == |run|
    requires forall i :: 0 <= i < |run| ==>
               run[i].thread < |threads| && Readable(run[i]) && texts[i] == TextOf(run[i])
    modifies threads, LatestOf(threads), ChunksOf(threads), Buffers(run)
    ensures forall th {:trigger th in threads} :: th in threads ==> th.Valid()
    ensures ok ==> forall k :: 0 <= k < |threads| ==>
              threads[k].text == old(threads[k].text) + TextShare(run, texts, k)
  {
    hide *;
    ok := true;
    InSets(threads, run);
    ShareNone(run, texts);
    for i := 0 to |run|
      invariant forall th {:trigger th in threads} :: th in threads ==>
        && th.Valid()
        && (th.latestTrace == null || th.latestTrace in old(LatestOf(threads)) || fresh(th.latestTrace))
        && fresh(th.chunks - old(ChunksOf(threads)))
      invariant forall j :: i <= j < |run| ==> Readable(run[j]) && TextOf(run[j]) == texts[j]
      invariant ok ==> forall k :: 0 <= k < |threads| ==>
        threads[k].text == old(threads[k].text) + TextShare(run[..i], texts[..i], k)
    {
      ShareStep(run, texts, i);
      var t := threads[run[i].thread];
      assert t in threads;
      var added := AddRecordOf(threads, run[i]);
      ok := ok && added;
    }
    assert run[..|run|] == run && texts[..|run|] == texts;
  }
}
