/** Dropping what logcat sends again after a reconnect (LogReceiverAdb.cpp). */
module Replays {
  /** A header line; one that cannot be read has the time zero. */
  datatype Header = Header(totMsec: nat, pid: int, tid: int, size: int)

  /** The last header let through, how many equal ones there were, and whether headers are being skipped. */
  datatype State = State(g: Header, c: nat, restarted: bool)

  /** The state after a header, and it is let through exactly when this state is not skipping. */
  function Step(s: State, h: Header): State {
    var found := s.g.totMsec < h.totMsec || (s.g.totMsec == h.totMsec && s.c == 0);
    if s.restarted && !found then
      State(s.g, if s.g.totMsec == h.totMsec then s.c - 1 else s.c, true)
    else
      Count(if s.restarted then s.(g := s.g.(totMsec := 0)) else s, h)
  }

  function Count(s: State, h: Header): State {
    if s.g.totMsec < h.totMsec then State(h, 1, false)
    else if s.g.totMsec > h.totMsec then State(s.g, s.c, true)
    else if s.g == h then State(s.g, s.c + 1, false)
    else State(h, 1, false)
  }

  class MetaDataParser {
    var gMtInfo: Header
    var cMtInfo: int
    var logRestarted: bool
    var skippedLogcat: nat

    ghost predicate Valid()
      reads this
    {
      cMtInfo >= 0
    }

    ghost function Now(): State
      requires Valid()
      reads this
    {
      State(gMtInfo, cMtInfo, logRestarted)
    }

    constructor (unset: Header)
      ensures Valid() && Now() == State(unset.(totMsec := 0), 0, false) && skippedLogcat == 0
    {
      gMtInfo := unset.(totMsec := 0);
      cMtInfo := 0;
      logRestarted := false;
      skippedLogcat := 0;
    }

    /** The part of ParceMetaData that follows reading the header. */
    method Accept(mtInfo: Header) returns (through: bool)
      requires Valid()
      modifies this
      ensures Valid() && Now() == Step(old(Now()), mtInfo) && through == !Now().restarted
      ensures skippedLogcat ==
                if !old(logRestarted) then old(skippedLogcat) else if through then 0 else old(skippedLogcat) + 1
    {
      if logRestarted {
        if gMtInfo.totMsec < mtInfo.totMsec {
          logRestarted := false;
        } else if gMtInfo.totMsec == mtInfo.totMsec {
          if cMtInfo != 0 {
            cMtInfo := cMtInfo - 1;
          } else {
            logRestarted := false;
          }
        }
        if !logRestarted {
          gMtInfo := gMtInfo.(totMsec := 0);
          skippedLogcat := 0;
        } else {
          skippedLogcat := skippedLogcat + 1;
        }
      }
      if !logRestarted {
        if gMtInfo.totMsec < mtInfo.totMsec {
          gMtInfo := mtInfo;
          cMtInfo := 1;
        } else if gMtInfo.totMsec == mtInfo.totMsec {
          if gMtInfo == mtInfo {
            cMtInfo := cMtInfo + 1;
          } else {
            gMtInfo := mtInfo;
            cMtInfo := 1;
          }
        } else {
          logRestarted := true;
        }
      }
      through := !logRestarted;
    }
  }

  /** The state after some headers. */
  function Run(s: State, hs: seq<Header>): State
    decreases |hs|
  {
    if hs == [] then s else Run(Step(s, hs[0]), hs[1..])
  }

  /** Those of the headers that are let through. */
  function Accepted(s: State, hs: seq<Header>): seq<Header>
    decreases |hs|
  {
    if hs == [] then []
    else (if Step(s, hs[0]).restarted then [] else [hs[0]]) + Accepted(Step(s, hs[0]), hs[1..])
  }

  ghost predicate InOrder(hs: seq<Header>, from: nat) {
    && (forall i :: 0 <= i < |hs| ==> from <= hs[i].totMsec)
    && (forall i, j :: 0 <= i < j < |hs| ==> hs[i].totMsec <= hs[j].totMsec)
  }

  /** Whatever arrives, the times of what is let through never decrease. */
  lemma {:induction false} TimesNeverDecrease(s: State, hs: seq<Header>)
    ensures InOrder(Accepted(s, hs), s.g.totMsec)
    decreases |hs|
  {
    if hs != [] {
      TimesNeverDecrease(Step(s, hs[0]), hs[1..]);
    }
  }

  // A device log is replayed in sessions: each one sends the log from some header on.

  ghost predicate IsLog(log: seq<Header>) {
    forall i, j :: 0 <= i < j < |log| ==> log[i].totMsec < log[j].totMsec
  }

  /** How far the log was let through: its first k headers, the last of them seen c times more than skipped. */
  datatype Progress = Progress(k: nat, c: nat, restarted: bool)

  ghost predicate Reached(log: seq<Header>, p: Progress) {
    0 < p.k <= |log| && (p.restarted || p.c > 0)
  }

  function At(log: seq<Header>, p: Progress): State
    requires 0 < p.k <= |log|
  {
    State(log[p.k - 1], p.c, p.restarted)
  }

  /** A session sends the headers from `start` up to `end`. */
  datatype Session = Session(start: nat, end: nat)

  /** The session lets the last header through again: it starts right there, or it finds nothing left to
      skip there because an earlier session ended exactly there. */
  predicate Repeats(p: Progress, s: Session)
    requires p.k > 0
  {
    s.start < p.k <= s.end && if p.restarted then p.c == 0 else s.start == p.k - 1
  }

  function Next(p: Progress, s: Session): Progress
    requires p.k > 0 && (p.restarted || p.c > 0)
  {
    if s.end > p.k then Progress(s.end, 1, false)
    else if s.start >= s.end then p
    else if s.end < p.k then p.(restarted := true)
    else if s.start == p.k then p
    else if Repeats(p, s) then (if p.restarted then Progress(p.k, 1, false) else p.(c := p.c + 1))
    else Progress(p.k, p.c - 1, true)
  }

  lemma OneHeader(log: seq<Header>, p: Progress, i: nat)
    requires IsLog(log) && Reached(log, p) && i < |log| && i <= p.k
    ensures var one := Session(i, i + 1);
      Reached(log, Next(p, one)) && Step(At(log, p), log[i]) == At(log, Next(p, one))
  {
  }

  lemma NextTwice(p: Progress, s: Session)
    requires p.k > 0 && (p.restarted || p.c > 0) && s.start < s.end && s.start <= p.k
    ensures var one, rest := Next(p, Session(s.start, s.start + 1)), s.(start := s.start + 1);
      && rest.start <= one.k && (one.restarted || one.c > 0) && Next(one, rest) == Next(p, s)
      && (Repeats(p, s) <==> Repeats(one, rest) || Repeats(p, Session(s.start, s.start + 1)))
  {
  }

  /** The header that an earlier session let through last, if the session repeats it, and what is new. */
  function Through(log: seq<Header>, p: Progress, s: Session): seq<Header>
    requires 0 < p.k <= |log| && s.end <= |log|
  {
    if Repeats(p, s) then log[p.k - 1..s.end] else if s.end > p.k then log[p.k..s.end] else []
  }

  lemma ThroughIs(log: seq<Header>, p: Progress, s: Session)
    requires Reached(log, p) && s.start <= s.end <= |log| && s.start <= p.k
    ensures |Through(log, p, s)| == Next(p, s).k - p.k + if Repeats(p, s) then 1 else 0
    ensures !Repeats(p, s) ==> p.k <= Next(p, s).k <= |log| && Through(log, p, s) == log[p.k..Next(p, s).k]
  {
  }

  lemma ThroughTwice(log: seq<Header>, p: Progress, s: Session)
    requires Reached(log, p) && s.start < s.end <= |log| && s.start <= p.k
    ensures var one := Next(p, Session(s.start, s.start + 1));
      Through(log, p, s) == (if one.restarted then [] else [log[s.start]]) + Through(log, one, s.(start := s.start + 1))
  {
    var q, rest := Next(p, Session(s.start, s.start + 1)), s.(start := s.start + 1);
    assert log[s.start..s.end] == [log[s.start]] + log[s.start + 1..s.end];
    assert [log[s.start]] + log[s.end..s.end] == [log[s.start]] && [] + Through(log, q, rest) == Through(log, q, rest);
    if q.restarted {
      assert Repeats(p, s) <==> Repeats(q, rest);
    } else if s.start < p.k {
      assert Repeats(p, s) && q.k == p.k && !Repeats(q, rest);
    } else {
      assert !Repeats(p, s) && q.k == p.k + 1 && !Repeats(q, rest);
    }
  }

  /** What one session lets through, when it does not leave a gap. */
  lemma {:induction false} OneSession(log: seq<Header>, p: Progress, s: Session)
    requires IsLog(log) && Reached(log, p) && s.start <= s.end <= |log| && s.start <= p.k
    ensures Reached(log, Next(p, s)) && Run(At(log, p), log[s.start..s.end]) == At(log, Next(p, s))
    ensures Accepted(At(log, p), log[s.start..s.end]) == Through(log, p, s)
    decreases s.end - s.start
  {
    if s.start < s.end {
      hide IsLog;
      var sent := log[s.start..s.end];
      OneHeader(log, p, s.start);
      NextTwice(p, s);
      ThroughTwice(log, p, s);
      assert sent[0] == log[s.start] && sent[1..] == log[s.start + 1..s.end];
      OneSession(log, Next(p, Session(s.start, s.start + 1)), s.(start := s.start + 1));
    }
  }

  // A run is any number of sessions.

  /** No session leaves a gap behind what was let through before. */
  ghost predicate NoGaps(log: seq<Header>, p: Progress, run: seq<Session>)
    requires p.k > 0 && (p.restarted || p.c > 0)
    decreases |run|
  {
    run == [] || (run[0].start <= run[0].end <= |log| && run[0].start <= p.k && NoGaps(log, Next(p, run[0]), run[1..]))
  }

  ghost function Final(log: seq<Header>, p: Progress, run: seq<Session>): (q: Progress)
    requires Reached(log, p) && IsLog(log) && NoGaps(log, p, run)
    ensures Reached(log, q) && q.k >= p.k
    decreases |run|
  {
    if run == [] then p else OneSession(log, p, run[0]); Final(log, Next(p, run[0]), run[1..])
  }

  ghost function Repetitions(log: seq<Header>, p: Progress, run: seq<Session>): nat
    requires p.k > 0 && (p.restarted || p.c > 0) && NoGaps(log, p, run)
    decreases |run|
  {
    if run == [] then 0 else (if Repeats(p, run[0]) then 1 else 0) + Repetitions(log, Next(p, run[0]), run[1..])
  }

  /** Everything that arrives during a run. */
  function Sent(log: seq<Header>, run: seq<Session>): seq<Header>
    requires forall s <- run :: s.start <= s.end <= |log|
  {
    if run == [] then [] else log[run[0].start..run[0].end] + Sent(log, run[1..])
  }

  lemma {:induction false} AcceptedPlus(s: State, a: seq<Header>, b: seq<Header>)
    ensures Accepted(s, a + b) == Accepted(s, a) + Accepted(Run(s, a), b)
    decreases |a|
  {
    if a == [] {
      assert a + b == b;
    } else {
      assert (a + b)[1..] == a[1..] + b;
      AcceptedPlus(Step(s, a[0]), a[1..], b);
    }
  }

  lemma {:induction false} Within(log: seq<Header>, p: Progress, run: seq<Session>)
    requires p.k > 0 && (p.restarted || p.c > 0) && NoGaps(log, p, run)
    ensures forall s <- run :: s.start <= s.end <= |log|
    decreases |run|
  {
    if run != [] {
      Within(log, Next(p, run[0]), run[1..]);
    }
  }

  /** A run lets through what is new and, for each repetition, one header more. Without repetitions the
      new headers pass once each and in order. */
  lemma {:induction false} OneRun(log: seq<Header>, p: Progress, run: seq<Session>)
    requires IsLog(log) && Reached(log, p) && NoGaps(log, p, run)
    ensures forall s <- run :: s.start <= s.end <= |log|
    ensures |Accepted(At(log, p), Sent(log, run))| == Final(log, p, run).k - p.k + Repetitions(log, p, run)
    ensures Repetitions(log, p, run) == 0 ==> Accepted(At(log, p), Sent(log, run)) == log[p.k..Final(log, p, run).k]
    decreases |run|
  {
    hide Through, Repeats, Step, Accepted, Run, IsLog;
    Within(log, p, run);
    if run == [] {
      NothingPasses(At(log, p), []);
    } else {
      var s, q := run[0], Next(p, run[0]);
      OneSession(log, p, s);
      OneRun(log, q, run[1..]);
      ThroughIs(log, p, s);
      AcceptedPlus(At(log, p), log[s.start..s.end], Sent(log, run[1..]));
      if Repetitions(log, p, run) == 0 {
        JoinsOn(log, p.k, q.k, Final(log, q, run[1..]).k);
      }
    }
  }

  lemma JoinsOn(log: seq<Header>, a: nat, b: nat, c: nat)
    requires a <= b <= c <= |log|
    ensures log[a..b] + log[b..c] == log[a..c]
  {
  }

  /** The headers pass once each and in order exactly when no session repeats the last one. */
  lemma ExactlyOnce(log: seq<Header>, p: Progress, run: seq<Session>)
    requires IsLog(log) && Reached(log, p) && NoGaps(log, p, run)
    ensures forall s <- run :: s.start <= s.end <= |log|
    ensures Accepted(At(log, p), Sent(log, run)) == log[p.k..Final(log, p, run).k] <==> Repetitions(log, p, run) == 0
  {
    OneRun(log, p, run);
  }

  /** Two replays that end exactly at the last header let through: the second one lets it through again. */
  lemma EndingAtTheLast(log: seq<Header>, p: Progress)
    requires IsLog(log) && Reached(log, p) && 1 < p.k && p.c == 1 && !p.restarted
    ensures var run := [Session(0, p.k), Session(0, p.k)];
      NoGaps(log, p, run) && Accepted(At(log, p), Sent(log, run)) == [log[p.k - 1]]
  {
    var s := Session(0, p.k);
    assert [s, s][1..] == [s] && [s][1..] == [];
    var replay := log[..p.k];
    assert Sent(log, [s]) == replay + [] && Sent(log, [s, s]) == replay + (replay + []);
    OneSession(log, p, s);
    OneSession(log, Next(p, s), s);
    AcceptedPlus(At(log, p), replay, replay);
    assert replay + [] == replay && log[p.k - 1..p.k] == [log[p.k - 1]];
  }

  /** Every reconnect starts before the last header let through and runs past it. */
  ghost predicate Overlapping(log: seq<Header>, k: nat, run: seq<Session>)
    decreases |run|
  {
    run == [] || (run[0].start + 1 < k < run[0].end <= |log| && Overlapping(log, run[0].end, run[1..]))
  }

  lemma {:induction false} OverlappingIsFine(log: seq<Header>, p: Progress, run: seq<Session>)
    requires IsLog(log) && Reached(log, p) && p.c > 0 && Overlapping(log, p.k, run)
    ensures NoGaps(log, p, run) && Repetitions(log, p, run) == 0
    decreases |run|
  {
    if run != [] {
      OverlappingIsFine(log, Next(p, run[0]), run[1..]);
    }
  }

  /** A device log that is replayed with an overlap at every reconnect passes once and in order. */
  lemma OverlappingReplays(log: seq<Header>, unset: Header, first: nat, run: seq<Session>)
    requires IsLog(log) && 0 < first <= |log| && Overlapping(log, first, run)
    ensures forall s <- run :: s.start <= s.end <= |log|
    ensures var k := if run == [] then first else run[|run| - 1].end;
      k <= |log| && Accepted(State(unset.(totMsec := 0), 0, false), log[..first] + Sent(log, run)) == log[..k]
  {
    var s, p := State(unset.(totMsec := 0), 0, false), Progress(1, 1, false);
    FirstSession(log, s, first);
    var q := Progress(first, 1, false);
    OverlappingIsFine(log, q, run);
    OneRun(log, q, run);
    FinalIsEnd(log, q, run);
    AcceptedPlus(s, log[..first], Sent(log, run));
  }

  lemma FirstSession(log: seq<Header>, s: State, first: nat)
    requires IsLog(log) && 0 < first <= |log| && s.g.totMsec == 0 && s.c == 0 && !s.restarted
    ensures Accepted(s, log[..first]) == log[..first]
    ensures Run(s, log[..first]) == At(log, Progress(first, 1, false))
  {
    assert log[..first] == [log[0]] + log[1..first];
    assert log[..first][1..] == log[1..first];
    OneSession(log, Progress(1, 1, false), Session(1, first));
  }

  lemma {:induction false} FinalIsEnd(log: seq<Header>, p: Progress, run: seq<Session>)
    requires IsLog(log) && Reached(log, p) && p.c > 0 && Overlapping(log, p.k, run) && NoGaps(log, p, run)
    ensures Final(log, p, run).k == if run == [] then p.k else run[|run| - 1].end
    decreases |run|
  {
    if run != [] {
      FinalIsEnd(log, Next(p, run[0]), run[1..]);
    }
  }

  // Several headers may have the same time.

  ghost predicate IsTimed(log: seq<Header>) {
    forall i, j :: 0 <= i < j < |log| ==> log[i].totMsec <= log[j].totMsec
  }

  /** How many of the first k headers have the time of the last one. */
  function Ties(log: seq<Header>, k: nat): (e: nat)
    requires 0 < k <= |log| && IsTimed(log)
    ensures 0 < e <= k && forall i :: 0 <= i < k ==> (log[i].totMsec == log[k - 1].totMsec <==> k - e <= i)
  {
    if k > 1 && log[k - 2].totMsec == log[k - 1].totMsec then Ties(log, k - 1) + 1 else 1
  }

  /** How many at the end of the first k headers are the same. */
  function Same(log: seq<Header>, k: nat): (c: nat)
    requires 0 < k <= |log| && IsTimed(log)
    ensures 0 < c <= Ties(log, k)
  {
    if k > 1 && log[k - 2] == log[k - 1] then Same(log, k - 1) + 1 else 1
  }

  lemma {:induction false} RunPlus(s: State, a: seq<Header>, b: seq<Header>)
    ensures Run(s, a + b) == Run(Run(s, a), b)
    decreases |a|
  {
    if a == [] {
      assert a + b == b;
    } else {
      assert (a + b)[1..] == a[1..] + b;
      RunPlus(Step(s, a[0]), a[1..], b);
    }
  }

  lemma {:induction false} FirstRead(log: seq<Header>, s: State, k: nat)
    requires IsTimed(log) && 0 < k <= |log| && s.g.totMsec == 0 && s.c == 0 && !s.restarted
    ensures Run(s, log[..k]) == State(log[k - 1], Same(log, k), false) && Accepted(s, log[..k]) == log[..k]
  {
    var front, h := log[..k - 1], [log[k - 1]];
    if k > 1 {
      FirstRead(log, s, k - 1);
    } else {
      assert front == [];
    }
    assert log[..k] == front + h;
    RunPlus(s, front, h);
    AcceptedPlus(s, front, h);
  }

  lemma {:induction false} SkipsEarlier(s: State, hs: seq<Header>)
    requires forall i :: 0 <= i < |hs| ==> hs[i].totMsec < s.g.totMsec
    ensures Run(s, hs) == s.(restarted := s.restarted || hs != []) && Accepted(s, hs) == []
    decreases |hs|
  {
    if hs != [] {
      SkipsEarlier(s.(restarted := true), hs[1..]);
    }
  }

  lemma {:induction false} SkipsTies(s: State, hs: seq<Header>)
    requires s.restarted && |hs| <= s.c && forall i :: 0 <= i < |hs| ==> hs[i].totMsec == s.g.totMsec
    ensures Run(s, hs) == s.(c := s.c - |hs|) && Accepted(s, hs) == []
    decreases |hs|
  {
    if hs != [] {
      SkipsTies(s.(c := s.c - 1), hs[1..]);
    }
  }

  /** When no more is to be skipped everything passes, and the last headers are counted as far as they are the same. */
  lemma {:induction false} PassesOn(log: seq<Header>, s: State, i: nat, j: nat)
    requires IsTimed(log) && i < j <= |log| && s.restarted && s.c == 0 && s.g.totMsec <= log[i].totMsec
    ensures Run(s, log[i..j]) == State(log[j - 1], Least(Same(log, j), j - i), false)
    ensures Accepted(s, log[i..j]) == log[i..j]
  {
    if j == i + 1 {
      assert log[i..j] == [log[i]];
    } else {
      var h := [log[j - 1]];
      PassesOn(log, s, i, j - 1);
      assert log[i..j] == log[i..j - 1] + h;
      RunPlus(s, log[i..j - 1], h);
      AcceptedPlus(s, log[i..j - 1], h);
    }
  }

  function Least(a: nat, b: nat): nat {
    if a < b then a else b
  }

  /** How far a log was let through: the header let through last, how many of those that have its time are to be
      skipped, and whether headers are being skipped. */
  datatype Tied = Tied(last: nat, c: nat, restarted: bool)

  /** The first header that has the time of the last one. */
  function FirstTied(log: seq<Header>, p: Tied): nat
    requires IsTimed(log) && p.last < |log|
  {
    p.last + 1 - Ties(log, p.last + 1)
  }

  ghost predicate TiedAt(log: seq<Header>, p: Tied) {
    IsTimed(log) && p.last < |log| && FirstTied(log, p) + p.c <= p.last + 1
  }

  function StateOf(log: seq<Header>, p: Tied): State
    requires p.last < |log|
  {
    State(log[p.last], p.c, p.restarted)
  }

  /** The replay starts before all headers that have the time of the last one. */
  ghost predicate StartsEarly(log: seq<Header>, p: Tied, s: Session)
    requires TiedAt(log, p)
  {
    s.start <= s.end <= |log| && (s.start < FirstTied(log, p) || (p.restarted && s.start == FirstTied(log, p)))
  }

  function NextTied(log: seq<Header>, p: Tied, s: Session): Tied
    requires IsTimed(log) && p.last < |log| && s.end <= |log|
  {
    var first := FirstTied(log, p);
    if s.start >= s.end then p
    else if s.end <= first then p.(restarted := true)
    else if s.end <= first + p.c then Tied(p.last, p.c - (s.end - first), true)
    else Tied(s.end - 1, Least(Same(log, s.end), s.end - first - p.c), false)
  }

  /** What a replay lets through: all but what is older than the last header and the first c of its time. */
  function ThroughTied(log: seq<Header>, p: Tied, s: Session): seq<Header>
    requires IsTimed(log) && p.last < |log| && s.end <= |log|
  {
    var from := FirstTied(log, p) + p.c;
    if from < s.end then log[from..s.end] else []
  }

  /** The headers from i to j, of which those up to a are older than the last one and those up to b of its time. */
  lemma SkipsBoth(log: seq<Header>, p: Tied, i: nat, a: nat, b: nat, j: nat)
    requires TiedAt(log, p) && i <= a <= FirstTied(log, p) && a <= b <= j <= |log|
    requires a < b ==> a == FirstTied(log, p) && b - a <= p.c
    requires p.restarted || i < a
    ensures var s := StateOf(log, p).(restarted := true, c := p.c - (b - a));
      && Run(StateOf(log, p), log[i..j]) == Run(s, log[b..j])
      && Accepted(StateOf(log, p), log[i..j]) == Accepted(s, log[b..j])
  {
    hide Run, Accepted, IsTimed, Ties, Same;
    TimesAround(log, p);
    var s0 := StateOf(log, p);
    var s1 := s0.(restarted := true);
    var early, skipped, rest := log[i..a], log[a..b], log[b..j];
    SkipsEarlier(s0, early);
    SkipsTies(s1, skipped);
    Three(s0, s1, s1.(c := p.c - (b - a)), early, skipped, rest);
    assert log[i..j] == early + (skipped + rest);
  }

  lemma TiedReplay(log: seq<Header>, p: Tied, s: Session)
    requires TiedAt(log, p) && StartsEarly(log, p, s)
    ensures TiedAt(log, NextTied(log, p, s))
    ensures Run(StateOf(log, p), log[s.start..s.end]) == StateOf(log, NextTied(log, p, s))
    ensures Accepted(StateOf(log, p), log[s.start..s.end]) == ThroughTied(log, p, s)
  {
    hide Run, Accepted, IsTimed, Ties, Same;
    var first, s0 := FirstTied(log, p), StateOf(log, p);
    if s.start == s.end {
      NothingPasses(s0, log[s.start..s.end]);
    } else if s.end <= first {
      SkipsBoth(log, p, s.start, s.end, s.end, s.end);
      NothingPasses(s0.(restarted := true), log[s.end..s.end]);
    } else if s.end <= first + p.c {
      SkipsBoth(log, p, s.start, first, s.end, s.end);
      NothingPasses(s0.(restarted := true, c := p.c - (s.end - first)), log[s.end..s.end]);
    } else {
      var from := first + p.c;
      SkipsBoth(log, p, s.start, first, from, s.end);
      TimesAround(log, p);
      PassesOn(log, s0.(restarted := true, c := 0), from, s.end);
      SameIsTied(log, s.end);
    }
  }

  lemma Three(s0: State, s1: State, s2: State, a: seq<Header>, b: seq<Header>, c: seq<Header>)
    requires Run(s0, a) == s1 && Run(s1, b) == s2 && Accepted(s0, a) == [] && Accepted(s1, b) == []
    ensures Run(s0, a + (b + c)) == Run(s2, c) && Accepted(s0, a + (b + c)) == Accepted(s2, c)
  {
    RunPlus(s0, a, b + c);
    RunPlus(s1, b, c);
    AcceptedPlus(s0, a, b + c);
    AcceptedPlus(s1, b, c);
    assert [] + Accepted(s2, c) == Accepted(s2, c);
  }

  lemma TimesAround(log: seq<Header>, p: Tied)
    requires TiedAt(log, p)
    ensures forall i :: 0 <= i < FirstTied(log, p) ==> log[i].totMsec < log[p.last].totMsec
    ensures forall i :: FirstTied(log, p) <= i < FirstTied(log, p) + p.c ==> log[i].totMsec == log[p.last].totMsec
    ensures forall i :: FirstTied(log, p) <= i < |log| ==> log[i].totMsec >= log[p.last].totMsec
  {
    var first := FirstTied(log, p);
    forall i | 0 <= i < first
      ensures log[i].totMsec < log[p.last].totMsec
    {
      assert log[i].totMsec <= log[p.last].totMsec;
    }
    forall i | first <= i < |log|
      ensures log[i].totMsec >= log[p.last].totMsec
    {
      assert log[first].totMsec == log[p.last].totMsec;
      assert i > first ==> log[first].totMsec <= log[i].totMsec;
    }
  }

  lemma SameIsTied(log: seq<Header>, k: nat)
    requires IsTimed(log) && 0 < k <= |log|
    ensures 0 < Same(log, k) <= Ties(log, k) <= k
  {
  }

  lemma NothingPasses(s: State, hs: seq<Header>)
    requires hs == []
    ensures Run(s, hs) == s && Accepted(s, hs) == []
  {
  }

  lemma EarlyReplay(log: seq<Header>, k: nat, start: nat, end: nat)
    requires IsTimed(log) && 0 < k <= end <= |log| && start < k - Ties(log, k)
    ensures var p := Tied(k - 1, Same(log, k), false);
      && TiedAt(log, p) && StartsEarly(log, p, Session(start, end)) && Same(log, k) <= Ties(log, k) <= k
      && FirstTied(log, p) == k - Ties(log, k)
  {
  }

  /** A log read up to some header and then replayed from earlier on: the headers pass once each if and only if
      all those read last with the same time are the same. Otherwise some of them pass again. */
  lemma TiesRepeat(log: seq<Header>, unset: Header, k: nat, start: nat, end: nat)
    requires IsTimed(log) && 0 < k <= end <= |log| && start < k - Ties(log, k)
    ensures var all := Accepted(State(unset.(totMsec := 0), 0, false), log[..k] + log[start..end]);
      && all == log[..k] + log[k - Ties(log, k) + Same(log, k)..end]
      && (all == log[..end] <==> Ties(log, k) == Same(log, k))
  {
    hide Accepted, Run, IsTimed, Same, Ties, TiedAt, StartsEarly;
    EarlyReplay(log, k, start, end);
    var s := State(unset.(totMsec := 0), 0, false);
    FirstRead(log, s, k);
    AcceptedPlus(s, log[..k], log[start..end]);
    TiedReplay(log, Tied(k - 1, Same(log, k), false), Session(start, end));
    JoinsAt(log, k, k - Ties(log, k) + Same(log, k), end);
  }

  lemma JoinsAt(log: seq<Header>, k: nat, f: nat, end: nat)
    requires f <= k <= end <= |log|
    ensures log[..k] + log[f..end] == log[..end] <==> f == k
  {
    if f == k {
      assert log[..k] + log[k..end] == log[..end];
    } else {
      assert |log[..k] + log[f..end]| > end;
    }
  }

  // A run is any number of replays of such a log.

  ghost predicate AllEarly(log: seq<Header>, p: Tied, run: seq<Session>)
    requires TiedAt(log, p)
    decreases |run|
  {
    run == []
    || (StartsEarly(log, p, run[0])
        && (TiedReplay(log, p, run[0]); AllEarly(log, NextTied(log, p, run[0]), run[1..])))
  }

  /** How far the log was let through after the run, when it was let through up to k before. */
  ghost function Farthest(log: seq<Header>, p: Tied, k: nat, run: seq<Session>): nat
    requires TiedAt(log, p) && AllEarly(log, p, run)
    decreases |run|
  {
    if run == [] then k
    else
      TiedReplay(log, p, run[0]);
      var end := if ThroughTied(log, p, run[0]) == [] then k else run[0].end;
      Farthest(log, NextTied(log, p, run[0]), if end > k then end else k, run[1..])
  }

  /** How many headers pass again: those that the program does not count as seen. */
  ghost function Again(log: seq<Header>, p: Tied, k: nat, run: seq<Session>): int
    requires TiedAt(log, p) && AllEarly(log, p, run)
    decreases |run|
  {
    if run == [] then 0
    else
      TiedReplay(log, p, run[0]);
      var from, end := FirstTied(log, p) + p.c, run[0].end;
      var again := if from < end then Least(k, end) - from else 0;
      again + Again(log, NextTied(log, p, run[0]), if from < end && end > k then end else k, run[1..])
  }

  lemma {:induction false} WithinLog(log: seq<Header>, p: Tied, run: seq<Session>)
    requires TiedAt(log, p) && AllEarly(log, p, run)
    ensures forall s <- run :: s.start <= s.end <= |log|
    decreases |run|
  {
    if run != [] {
      TiedReplay(log, p, run[0]);
      WithinLog(log, NextTied(log, p, run[0]), run[1..]);
    }
  }

  /** Over any run of replays the headers that are new pass, and Again(..) of the old ones; they pass once each and in
      order if and only if there are none of these. */
  lemma {:induction false} TiedRun(log: seq<Header>, p: Tied, k: nat, run: seq<Session>)
    requires TiedAt(log, p) && AllEarly(log, p, run) && p.last < k <= |log|
    ensures forall s <- run :: s.start <= s.end <= |log|
    ensures k <= Farthest(log, p, k, run) <= |log| && Again(log, p, k, run) >= 0
    ensures var all, far := Accepted(StateOf(log, p), Sent(log, run)), Farthest(log, p, k, run);
      |all| == far - k + Again(log, p, k, run) && (all == log[k..far] <==> Again(log, p, k, run) == 0)
    decreases |run|
  {
    hide Run, Accepted, IsTimed, Ties, Same, StartsEarly, NextTied;
    WithinLog(log, p, run);
    if run == [] {
      NothingPasses(StateOf(log, p), []);
    } else {
      var s, q := run[0], NextTied(log, p, run[0]);
      TiedReplay(log, p, s);
      var from, through := FirstTied(log, p) + p.c, ThroughTied(log, p, s);
      var k' := if from < s.end && s.end > k then s.end else k;
      LastIsSeen(log, p, s, k);
      TiedRun(log, q, k', run[1..]);
      AcceptedPlus(StateOf(log, p), log[s.start..s.end], Sent(log, run[1..]));
      OnceMore(log, through, Accepted(StateOf(log, q), Sent(log, run[1..])), from, s.end, k,
               Farthest(log, q, k', run[1..]), Again(log, q, k', run[1..]));
    }
  }

  lemma LastIsSeen(log: seq<Header>, p: Tied, s: Session, k: nat)
    requires TiedAt(log, p) && s.end <= |log| && p.last < k
    ensures NextTied(log, p, s).last < if FirstTied(log, p) + p.c < s.end && s.end > k then s.end else k
  {
  }

  lemma OnceMore(log: seq<Header>, through: seq<Header>, rest: seq<Header>, from: nat, end: nat, k: nat, far: nat,
                 more: int)
    requires from <= k <= |log| && end <= |log| && through == if from < end then log[from..end] else []
    requires var k' := if from < end && end > k then end else k;
      && k' <= far <= |log| && more >= 0 && |rest| == far - k' + more && (rest == log[k'..far] <==> more == 0)
    ensures var again := if from < end then Least(k, end) - from else 0;
      && again >= 0 && |through + rest| == far - k + again + more
      && (through + rest == log[k..far] <==> again + more == 0)
  {
    var k' := if from < end && end > k then end else k;
    if more == 0 && (if from < end then Least(k, end) - from else 0) == 0 {
      assert through == log[k..k'] && log[k..k'] + log[k'..far] == log[k..far];
    }
  }
}
