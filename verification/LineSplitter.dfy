/** Cutting a byte stream into lines (LogParcer.h, LogReceiverAdb.cpp). */
module LineSplitters {
  import opened Chars

  // The lines of a stream, one byte after the other.

  /** The lines that s completes when `pending` is the unfinished line before it. A line is
      completed by a line break or by its n-th byte; nothing stands between two line breaks. */
  function Lines(n: nat, pending: string, s: string): seq<string>
    decreases |s|
  {
    if s == [] then []
    else if IsNewLine(s[0]) then (if pending == [] then [] else [pending]) + Lines(n, [], s[1..])
    else if |pending| + 1 >= n then [pending + [s[0]]] + Lines(n, [], s[1..])
    else Lines(n, pending + [s[0]], s[1..])
  }

  /** What is left unfinished. */
  function Rest(n: nat, pending: string, s: string): string
    decreases |s|
  {
    if s == [] then pending
    else if IsNewLine(s[0]) || |pending| + 1 >= n then Rest(n, [], s[1..])
    else Rest(n, pending + [s[0]], s[1..])
  }

  /** Cutting the stream anywhere makes no difference. */
  lemma {:induction false} LinesPlus(n: nat, pending: string, s: string, t: string)
    ensures Lines(n, pending, s + t) == Lines(n, pending, s) + Lines(n, Rest(n, pending, s), t)
    ensures Rest(n, pending, s + t) == Rest(n, Rest(n, pending, s), t)
    decreases |s|
  {
    if s == [] {
      assert s + t == t;
    } else {
      assert (s + t)[1..] == s[1..] + t;
      if IsNewLine(s[0]) || |pending| + 1 >= n {
        LinesPlus(n, [], s[1..], t);
      } else {
        LinesPlus(n, pending + [s[0]], s[1..], t);
      }
    }
  }

  // The same lines, segment by segment.

  ghost predicate NoBreaks(s: string) {
    forall i {:trigger s[i]} :: 0 <= i < |s| ==> s[i] != '\n' && s[i] != '\r'
  }

  ghost predicate OnlyBreaks(s: string) {
    forall i {:trigger s[i]} :: 0 <= i < |s| ==> IsNewLine(s[i])
  }

  /** A segment in pieces of n bytes, without the shorter piece that may remain. */
  function Pieces(n: nat, s: string): seq<string>
    requires n > 0
    decreases |s|
  {
    if |s| < n then [] else [s[..n]] + Pieces(n, s[n..])
  }

  function Remainder(n: nat, s: string): string
    requires n > 0
    decreases |s|
  {
    if |s| < n then s else Remainder(n, s[n..])
  }

  /** The pieces of a finished segment: all have n bytes but the last one, which has at least one. */
  function Chopped(n: nat, s: string): seq<string>
    requires n > 0
  {
    Pieces(n, s) + if Remainder(n, s) == [] then [] else [Remainder(n, s)]
  }

  lemma {:induction false} LinesOfSegment(n: nat, pending: string, s: string)
    requires |pending| < n && NoBreaks(s)
    ensures Lines(n, pending, s) == Pieces(n, pending + s) && Rest(n, pending, s) == Remainder(n, pending + s)
    decreases |s|
  {
    if s == [] {
      assert pending + s == pending;
    } else if |pending| + 1 == n {
      assert (pending + s)[..n] == pending + [s[0]] && (pending + s)[n..] == [] + s[1..];
      LinesOfSegment(n, [], s[1..]);
    } else {
      assert pending + s == (pending + [s[0]]) + s[1..];
      LinesOfSegment(n, pending + [s[0]], s[1..]);
    }
  }

  /** Where the first line break is, or the length if there is none. */
  function FirstBreak(s: string): (k: nat)
    ensures k <= |s| && NoBreaks(s[..k]) && (k < |s| ==> s[k] == '\n' || s[k] == '\r')
  {
    if s == [] || s[0] == '\n' || s[0] == '\r' then 0
    else
      var k := FirstBreak(s[1..]);
      assert s[..k + 1] == [s[0]] + s[1..][..k];
      k + 1
  }

  /** The segments between line breaks that are finished, each in pieces, and the full pieces of the last one. */
  function SegmentLines(n: nat, s: string): seq<string>
    requires n > 0
    decreases |s|
  {
    var k := FirstBreak(s);
    if k == |s| then Pieces(n, s) else Chopped(n, s[..k]) + SegmentLines(n, s[k + 1..])
  }

  lemma SegmentEnds(n: nat, segment: string, c: char, t: string)
    requires n > 0 && NoBreaks(segment) && IsNewLine(c)
    ensures Lines(n, [], segment + ([c] + t)) == Chopped(n, segment) + Lines(n, [], t)
  {
    assert [] + segment == segment;
    LinesOfSegment(n, [], segment);
    LinesPlus(n, [], segment, [c] + t);
    assert ([c] + t)[1..] == t;
  }

  /** The lines of a stream are the segments between its line breaks, cut into pieces of n bytes. */
  lemma {:induction false} LinesAreSegments(n: nat, s: string)
    requires n > 0
    ensures Lines(n, [], s) == SegmentLines(n, s)
    decreases |s|
  {
    var k := FirstBreak(s);
    if k == |s| {
      assert s[..k] == s && [] + s == s;
      LinesOfSegment(n, [], s);
    } else {
      var t := s[k + 1..];
      assert s == s[..k] + ([s[k]] + t);
      SegmentEnds(n, s[..k], s[k], t);
      LinesAreSegments(n, t);
    }
  }

  /** No line holds a line break, and none is empty. */
  lemma {:induction false} LinesAreClean(n: nat, pending: string, s: string)
    requires NoBreaks(pending)
    ensures NoBreaks(Rest(n, pending, s))
    ensures forall k :: 0 <= k < |Lines(n, pending, s)| ==>
              Lines(n, pending, s)[k] != [] && NoBreaks(Lines(n, pending, s)[k])
    decreases |s|
  {
    if s != [] {
      LinesAreClean(n, if IsNewLine(s[0]) || |pending| + 1 >= n then [] else pending + [s[0]], s[1..]);
    }
  }

  function Flat(lines: seq<string>): string {
    if lines == [] then [] else lines[0] + Flat(lines[1..])
  }

  function WithoutBreaks(s: string): string {
    if s == [] then []
    else (if s[0] == '\n' || s[0] == '\r' then [] else [s[0]]) + WithoutBreaks(s[1..])
  }

  lemma FlatCons(line: string, rest: seq<string>, tail: string)
    ensures Flat([line] + rest) + tail == line + (Flat(rest) + tail)
  {
    assert ([line] + rest)[1..] == rest;
  }

  /** No byte is lost but the line breaks, whatever the size of the buffer. */
  lemma {:induction false} NothingLost(n: nat, pending: string, s: string)
    ensures Flat(Lines(n, pending, s)) + Rest(n, pending, s) == pending + WithoutBreaks(s)
    decreases |s|
  {
    if s == [] {
      return;
    }
    var rest := s[1..];
    var lines, tail, kept := Lines(n, [], rest), Rest(n, [], rest), WithoutBreaks(rest);
    if IsNewLine(s[0]) {
      NothingLost(n, [], rest);
      if pending == [] {
        assert [] + lines == lines && [] + kept == kept && pending + kept == kept;
      } else {
        FlatCons(pending, lines, tail);
        assert [] + kept == kept;
      }
    } else {
      var line := pending + [s[0]];
      assert line + kept == pending + ([s[0]] + kept);
      if |pending| + 1 >= n {
        NothingLost(n, [], rest);
        FlatCons(line, lines, tail);
        assert [] + kept == kept;
      } else {
        NothingLost(n, line, rest);
      }
    }
  }

  /** The lines that a stream completes when it arrives in chunks. */
  function FedLines(n: nat, pending: string, chunks: seq<string>): seq<string>
    decreases |chunks|
  {
    if chunks == [] then []
    else Lines(n, pending, chunks[0]) + FedLines(n, Rest(n, pending, chunks[0]), chunks[1..])
  }

  /** However the stream is cut into chunks, it has the lines of the whole. */
  lemma {:induction false} CutsDoNotMatter(n: nat, pending: string, chunks: seq<string>)
    ensures FedLines(n, pending, chunks) == Lines(n, pending, Flat(chunks))
    decreases |chunks|
  {
    if chunks != [] {
      LinesPlus(n, pending, chunks[0], Flat(chunks[1..]));
      CutsDoNotMatter(n, Rest(n, pending, chunks[0]), chunks[1..]);
    }
  }

  /** What one call of GetLine reads: line breaks only if no line is pending, then a part of a line,
      then line breaks. */
  lemma OneCall(n: nat, pending: string, breaks: string, part: string, after: string)
    requires |pending| < n && |pending| + |part| <= n
    requires OnlyBreaks(breaks) && NoBreaks(part) && OnlyBreaks(after) && (breaks != [] ==> pending == [])
    requires after == [] || |pending| + |part| > 0
    ensures Lines(n, pending, breaks + part + after) ==
              if after == [] && |pending| + |part| < n then [] else [pending + part]
    ensures Rest(n, pending, breaks + part + after) ==
              if after == [] && |pending| + |part| < n then pending + part else []
  {
    SkipBreaks(n, pending, breaks);
    LinesPlus(n, pending, breaks, part);
    LinesOfSegment(n, pending, part);
    LinesPlus(n, pending, breaks + part, after);
    var line := pending + part;
    if |line| == n {
      assert line[..n] == line && line[n..] == [];
      SkipBreaks(n, [], after);
    } else if after != [] {
      SkipBreaks(n, [], after[1..]);
    }
  }

  lemma {:induction false} SkipBreaks(n: nat, pending: string, s: string)
    requires OnlyBreaks(s) && (s != [] ==> pending == [])
    ensures Lines(n, pending, s) == [] && Rest(n, pending, s) == pending
  {
    if s != [] {
      SkipBreaks(n, [], s[1..]);
    }
  }

  class LogParcer {
    const buf: array<char>
    const bufSize: nat
    var size: nat
    var riched: bool

    ghost predicate Valid()
      reads this, buf
    {
      && 0 < bufSize && buf.Length == bufSize + 9 && size <= bufSize + 1
      && (!riched ==> size < bufSize) && buf[size] == '\0'
    }

    ghost function Contents(): string
      requires Valid()
      reads this, buf
    {
      buf[..size]
    }

    constructor (c: nat)
      requires 0 < c
      ensures Valid() && fresh(buf) && bufSize == c && !riched && Contents() == []
    {
      bufSize := c;
      buf := new char[c + 9];
      new;
      Reset();
    }

    method Reset()
      requires 0 < bufSize && buf.Length == bufSize + 9
      modifies this, buf
      ensures Valid() && !riched && Contents() == []
    {
      size := 0;
      buf[0] := '\0';
      riched := false;
    }

    /** Read from sz up to the end of a line, if it has one. */
    method GetLine(sz: string, endWithNewLine: bool) returns (i: nat)
      requires Valid() && !riched
      modifies this, buf
      ensures Valid() && i <= |sz| && (sz != [] ==> i > 0) && (!riched ==> i == |sz|)
      ensures Rest(bufSize, old(Contents()), sz[..i]) == if riched then [] else Contents()
      ensures !riched ==> Lines(bufSize, old(Contents()), sz[..i]) == []
      ensures riched ==> |Lines(bufSize, old(Contents()), sz[..i])| == 1 &&
                           Contents() == Ended(Lines(bufSize, old(Contents()), sz[..i])[0], endWithNewLine)
    {
      hide Lines, Rest, OnlyBreaks, NoBreaks;
      i := 0;
      if size == 0 {
        i := SkipNewLines(sz, i);
      }
      ghost var breaks := sz[..i];
      ghost var a := i;
      i := Append(sz, i);
      ghost var part, b := sz[a..i], i;
      riched := (size > 0 && i < |sz| && IsNewLine(sz[i])) || size == bufSize;
      i := SkipNewLines(sz, i);
      OneCall(bufSize, old(Contents()), breaks, part, sz[b..i]);
      assert sz[..i] == breaks + part + sz[b..i];
      if riched {
        if endWithNewLine {
          buf[size] := '\n';
          size := size + 1;
        }
      }
      buf[size] := '\0';
    }

    method SkipNewLines(sz: string, from: nat) returns (i: nat)
      requires from <= |sz|
      ensures from <= i <= |sz| && OnlyBreaks(sz[from..i])
      ensures i < |sz| ==> !IsNewLine(sz[i])
    {
      i := from;
      while i < |sz| && IsNewLine(sz[i])
        invariant from <= i <= |sz| && OnlyBreaks(sz[from..i])
      {
        assert sz[from..i + 1] == sz[from..i] + [sz[i]];
        i := i + 1;
      }
    }

    /** Take bytes into the buffer up to a line break, or until the buffer is full. */
    method Append(sz: string, from: nat) returns (i: nat)
      requires Valid() && !riched && from <= |sz|
      modifies this`size, buf
      ensures from <= i <= |sz| && NoBreaks(sz[from..i]) && size <= bufSize
      ensures buf[..size] == old(Contents()) + sz[from..i]
      ensures i < |sz| && !IsNewLine(sz[i]) ==> size == bufSize
    {
      i := from;
      while i < |sz| && !IsNewLine(sz[i])
        invariant from <= i <= |sz| && NoBreaks(sz[from..i]) && size <= bufSize
        invariant buf[..size] == old(Contents()) + sz[from..i]
      {
        assert sz[from..i + 1] == sz[from..i] + [sz[i]];
        if size < bufSize {
          buf[size] := sz[i];
          size := size + 1;
        } else {
          break;
        }
        i := i + 1;
      }
    }
  }

  /** A line as it is passed on. */
  function Ended(line: string, endWithNewLine: bool): string {
    if endWithNewLine then line + ['\n'] else line
  }

  function AllEnded(lines: seq<string>): (r: seq<string>)
    ensures |r| == |lines| && forall k :: 0 <= k < |r| ==> r[k] == lines[k] + ['\n']
  {
    if lines == [] then [] else AllEnded(lines[..|lines| - 1]) + [Ended(lines[|lines| - 1], true)]
  }

  /** Feed one chunk of the stream. The lines it completes are passed on one by one; the buffer keeps
      what is left over. Every call of GetLine makes progress. */
  method HandleLogData(mt: LogParcer, szLog: string) returns (lines: seq<string>)
    requires mt.Valid() && !mt.riched
    modifies mt, mt.buf
    ensures mt.Valid() && !mt.riched
    ensures mt.Contents() == Rest(mt.bufSize, old(mt.Contents()), szLog)
    ensures lines == AllEnded(Lines(mt.bufSize, old(mt.Contents()), szLog))
    ensures NoBreaks(old(mt.Contents())) ==> NoBreaks(mt.Contents()) && forall k :: 0 <= k < |lines| ==>
              |lines[k]| > 1 && lines[k][|lines[k]| - 1] == '\n' && NoBreaks(lines[k][..|lines[k]| - 1])
  {
    lines := [];
    var done := 0;
    ghost var whole: seq<string> := [];
    while done < |szLog|
      invariant mt.Valid() && !mt.riched && done <= |szLog|
      invariant mt.Contents() == Rest(mt.bufSize, old(mt.Contents()), szLog[..done])
      invariant whole == Lines(mt.bufSize, old(mt.Contents()), szLog[..done])
      invariant lines == AllEnded(whole)
      decreases |szLog| - done
    {
      var skipped, line := NextLine(mt, szLog[done..]);
      LinesPlus(mt.bufSize, old(mt.Contents()), szLog[..done], szLog[done..][..skipped]);
      assert szLog[..done + skipped] == szLog[..done] + szLog[done..][..skipped];
      if line != [] {
        lines := lines + [line];
        whole := whole + [line[..|line| - 1]];
        assert whole[..|whole| - 1] + [line[..|line| - 1]] == whole;
      }
      done := done + skipped;
    }
    assert szLog[..done] == szLog;
    if NoBreaks(old(mt.Contents())) {
      LinesAreClean(mt.bufSize, old(mt.Contents()), szLog);
      forall k | 0 <= k < |lines|
        ensures |lines[k]| > 1 && lines[k][|lines[k]| - 1] == '\n' && NoBreaks(lines[k][..|lines[k]| - 1])
      {
        assert lines[k] == whole[k] + ['\n'] && lines[k][..|lines[k]| - 1] == whole[k];
      }
    }
  }

  /** One round: what is passed on, if anything, and how much was read. */
  method NextLine(mt: LogParcer, szLog: string) returns (skipped: nat, line: string)
    requires mt.Valid() && !mt.riched && szLog != []
    modifies mt, mt.buf
    ensures mt.Valid() && !mt.riched && 0 < skipped <= |szLog|
    ensures mt.Contents() == Rest(mt.bufSize, old(mt.Contents()), szLog[..skipped])
    ensures line != [] ==> line == Ended(line[..|line| - 1], true)
    ensures Lines(mt.bufSize, old(mt.Contents()), szLog[..skipped]) == if line == [] then [] else [line[..|line| - 1]]
  {
    line := [];
    skipped := mt.GetLine(szLog, true);
    if mt.riched {
      line := mt.buf[..mt.size];
      mt.Reset();
    }
  }
}
