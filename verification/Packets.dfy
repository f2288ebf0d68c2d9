/** Records that arrive in numbered network packets, possibly more than once (LogRecorder.cpp, Archive.cpp). */
module Packets {
  datatype LogType = ENTER | EXIT | TRACE | APP | THREAD

  type Number = n: nat | n < 0x1_0000_0000

  /** What of a record's header decides whether it is taken. */
  datatype Record = Record(len: int, logType: LogType, nn: Number, cbApp: nat, cbModule: nat, cbFn: nat,
                           cbTrace: nat, pid: int)

  const BASE_SIZE := 52
  const MAX_LOG_LEN := 1600
  const MAX_RECORD_LEN := MAX_LOG_LEN + 2 * BASE_SIZE

  function CbData(r: Record): nat {
    r.cbApp + r.cbModule + r.cbFn + r.cbTrace
  }

  predicate IsValid(r: Record) {
    && r.len >= BASE_SIZE + CbData(r) && r.len > BASE_SIZE
    && (BASE_SIZE + CbData(r) < MAX_RECORD_LEN || r.logType == TRACE)
  }

  /** The data of a packet: `at` gives what is read as a header at each offset. */
  datatype Data = Data(at: int -> Record, length: int)

  class NetPack {
    const data: Data
    var pack_nn: int

    constructor (data: Data, pack_nn: int)
      ensures this.data == data && this.pack_nn == pack_nn
    {
      this.data := data;
      this.pack_nn := pack_nn;
    }
  }

  const INFINITE := 0xFFFF_FFFF
  const DWORD := 0x1_0000_0000

  /** An application: the last packet and record numbers, how many records are missing, and the records
      taken for it so far. */
  datatype App = App(pid: int, psNN: nat, lastPackNN: int, lastRecNN: Number, lost: Number, taken: seq<Record>)

  function NewApp(pid: int): App {
    App(pid, 0, -1, INFINITE, 0, [])
  }

  /** How many record numbers lie between two records, as the program counts them. */
  function Gap(last: nat, nn: nat): nat {
    if nn == 0 || last == INFINITE || last == nn - 1 || last == nn then 0
    else if nn > last then nn - last else last - nn
  }

  /** A record that is not imported is counted and taken. */
  function Counted(app: App, r: Record, fromImport: bool): App {
    if fromImport then app.(taken := app.taken + [r])
    else app.(lost := (app.lost + Gap(app.lastRecNN, r.nn)) % DWORD,
              lastRecNN := if r.nn == 0 then app.lastRecNN else r.nn,
              taken := app.taken + [r])
  }

  function Paused(app: App): App {
    app.(lastRecNN := INFINITE, lastPackNN := -1)
  }

  ghost predicate PidsDiffer(apps: seq<App>) {
    forall i, j :: 0 <= i < j < |apps| ==> apps[i].pid != apps[j].pid
  }

  /** The application of a process; one that is not known yet is as it will be added. */
  function AppOf(apps: seq<App>, pid: int): App {
    if apps == [] then NewApp(pid)
    else if apps[|apps| - 1].pid == pid then apps[|apps| - 1]
    else AppOf(apps[..|apps| - 1], pid)
  }

  lemma {:induction false} AppIs(apps: seq<App>, k: nat)
    requires PidsDiffer(apps) && k < |apps|
    ensures AppOf(apps, apps[k].pid) == apps[k]
  {
    if k < |apps| - 1 {
      AppIs(apps[..|apps| - 1], k);
    }
  }

  lemma {:induction false} AppIsNew(apps: seq<App>, pid: int)
    requires forall k :: 0 <= k < |apps| ==> apps[k].pid != pid
    ensures AppOf(apps, pid) == NewApp(pid)
  {
    if apps != [] {
      AppIsNew(apps[..|apps| - 1], pid);
    }
  }

  /** Only the application of one process may have changed. */
  ghost predicate Changed(apps: seq<App>, now: seq<App>, pid: int, app: App) {
    forall p :: AppOf(now, p) == if p == pid then app else AppOf(apps, p)
  }

  lemma UpdateChanges(apps: seq<App>, k: nat, app: App)
    requires PidsDiffer(apps) && k < |apps| && app.pid == apps[k].pid
    ensures Changed(apps, apps[k := app], app.pid, app)
  {
    var now := apps[k := app];
    forall p
      ensures AppOf(now, p) == if p == app.pid then app else AppOf(apps, p)
    {
      if i :| 0 <= i < |apps| && apps[i].pid == p {
        AppIs(apps, i);
        AppIs(now, i);
      } else {
        AppIsNew(apps, p);
        AppIsNew(now, p);
      }
    }
  }

  lemma AddChanges(apps: seq<App>, pid: int)
    requires forall k :: 0 <= k < |apps| ==> apps[k].pid != pid
    ensures Changed(apps, apps + [NewApp(pid)], pid, NewApp(pid)) && AppOf(apps, pid) == NewApp(pid)
  {
    AppIsNew(apps, pid);
    assert (apps + [NewApp(pid)])[..|apps|] == apps;
  }

  /** One record of an application: what it becomes and what becomes of the packet number. */
  function Taken(app: App, r: Record, nn: int, fromImport: bool): (App, int) {
    if r.logType == APP then (app.(psNN := r.nn), nn)
    else if nn <= 0 || fromImport then (Counted(app, r, fromImport), nn)
    else if nn <= app.lastPackNN then (app, nn)
    else (Counted(app.(lastPackNN := nn), r, false), -nn)
  }

  class Recorder {
    var apps: seq<App> // in the order of the archive's tree
    var curApp: int    // the last one used, or -1

    ghost predicate Valid()
      reads this
    {
      PidsDiffer(apps) && -1 <= curApp < |apps|
    }

    constructor ()
      ensures Valid() && apps == []
    {
      apps := [];
      curApp := -1;
    }

    /** Find or add the application of a process. */
    method GetApp(pid: int)
      requires Valid()
      modifies this
      ensures Valid() && 0 <= curApp && apps[curApp] == AppOf(old(apps), pid) && apps[curApp].pid == pid
      ensures Changed(old(apps), apps, pid, AppOf(old(apps), pid))
      ensures apps == old(apps) + if exists k :: 0 <= k < |old(apps)| && old(apps)[k].pid == pid then []
                                  else [App(pid, 0, -1, 0xFFFF_FFFF, 0, [])]
    {
      if curApp >= 0 && apps[curApp].pid != pid {
        curApp := -1;
      }
      if curApp < 0 {
        curApp := |apps| - 1;
        while curApp >= 0 && apps[curApp].pid != pid
          invariant -1 <= curApp < |apps| && apps == old(apps)
          invariant forall k :: curApp < k < |apps| ==> apps[k].pid != pid
        {
          curApp := curApp - 1;
        }
      }
      if curApp < 0 {
        AddChanges(apps, pid);
        apps := apps + [NewApp(pid)];
        curApp := |apps| - 1;
      } else {
        AppIs(apps, curApp);
      }
    }

    /** Take a record unless it came in a packet that is not newer than the last one taken. */
    method AppendRec(r: Record, pack: NetPack, fromImport: bool)
      requires Valid()
      modifies this, pack`pack_nn
      ensures Valid()
      ensures pack.pack_nn == Taken(AppOf(old(apps), r.pid), r, old(pack.pack_nn), fromImport).1
      ensures Changed(old(apps), apps, r.pid, Taken(AppOf(old(apps), r.pid), r, old(pack.pack_nn), fromImport).0)
      ensures r.logType == APP ==> AppOf(apps, r.pid) == AppOf(old(apps), r.pid).(psNN := r.nn)
      ensures r.logType != APP && fromImport ==>
                AppOf(apps, r.pid) == AppOf(old(apps), r.pid).(taken := AppOf(old(apps), r.pid).taken + [r])
    {
      GetApp(r.pid);
      var app := apps[curApp];
      if r.logType == APP {
        Put(app.(psNN := r.nn));
        return;
      }
      if pack.pack_nn > 0 && !fromImport {
        if pack.pack_nn <= app.lastPackNN {
          return;
        }
        app := app.(lastPackNN := pack.pack_nn);
        pack.pack_nn := -pack.pack_nn; // stop checking the number
      }
      if r.nn != 0 && app.lastRecNN != INFINITE && !fromImport {
        if app.lastRecNN != r.nn - 1 && app.lastRecNN != r.nn {
          var lost := if r.nn > app.lastRecNN then r.nn - app.lastRecNN else app.lastRecNN - r.nn;
          app := app.(lost := (app.lost + lost) % DWORD);
        }
      }
      if r.nn != 0 && !fromImport {
        app := app.(lastRecNN := r.nn);
      }
      Put(app.(taken := app.taken + [r]));
    }

    /** A pause: packets and records may be numbered from the start again. */
    method OnPaused()
      requires Valid()
      modifies this`apps
      ensures Valid() && |apps| == |old(apps)|
      ensures forall k :: 0 <= k < |apps| ==> apps[k] == Paused(old(apps)[k])
      ensures forall k :: 0 <= k < |apps| ==> apps[k] == old(apps)[k].(lastRecNN := 0xFFFF_FFFF, lastPackNN := -1)
    {
      var k := |apps| - 1;
      while k >= 0
        invariant -1 <= k < |apps| == |old(apps)|
        invariant forall j :: 0 <= j <= k ==> apps[j] == old(apps)[j]
        invariant forall j :: k < j < |apps| ==> apps[j] == Paused(old(apps)[j])
      {
        apps := apps[k := apps[k].(lastRecNN := INFINITE, lastPackNN := -1)];
        k := k - 1;
      }
    }

    method Put(app: App)
      requires Valid() && 0 <= curApp && app.pid == apps[curApp].pid
      modifies this`apps
      ensures Valid() && Changed(old(apps), apps, app.pid, app)
    {
      UpdateChanges(apps, curApp, app);
      apps := apps[curApp := app];
    }

    method AppendNet(r: Record, pack: NetPack, fromImport: bool) returns (ok: bool)
      requires Valid()
      modifies this, pack`pack_nn
      ensures Valid() && ok == IsValid(r)
      ensures var size := 52 + r.cbApp + r.cbModule + r.cbFn + r.cbTrace;
        ok <==> size <= r.len && 52 < r.len && (r.logType == TRACE || size < 1600 + 2 * 52)
      ensures !ok ==> apps == old(apps) && pack.pack_nn == old(pack.pack_nn)
      ensures ok ==> pack.pack_nn == Taken(AppOf(old(apps), r.pid), r, old(pack.pack_nn), fromImport).1
      ensures ok ==> Changed(old(apps), apps, r.pid, Taken(AppOf(old(apps), r.pid), r, old(pack.pack_nn), fromImport).0)
    {
      if !IsValid(r) {
        return false;
      }
      AppendRec(r, pack, fromImport);
      ok := true;
    }

    /** Take the records of a packet one after the other, each where the one before it ends. */
    method RecordNetPack(pack: NetPack) returns (isOK: bool)
      requires Valid()
      modifies this, pack`pack_nn
      ensures Valid() && isOK == Tiled(pack.data, Records(pack.data, 0))
      ensures pack.pack_nn == NumberAfter(old(apps), Records(pack.data, 0), old(pack.pack_nn))
      ensures forall p :: AppOf(apps, p) == AppAfter(old(apps), Records(pack.data, 0), old(pack.pack_nn), p)
    {
      hide Taken, AppAfter, NumberAfter, Lengths, AppOf;
      isOK := true;
      NoneYet(apps, pack.pack_nn);
      var parsed := 0;
      ghost var recs: seq<Record> := [];
      while parsed < pack.data.length
        invariant Valid() && parsed == Lengths(recs) && recs + Records(pack.data, parsed) == Records(pack.data, 0)
        invariant pack.pack_nn == NumberAfter(old(apps), recs, old(pack.pack_nn))
        invariant forall p :: AppOf(apps, p) == AppAfter(old(apps), recs, old(pack.pack_nn), p)
        invariant isOK && (pack.data.length >= 0 ==> parsed <= pack.data.length)
        decreases pack.data.length - parsed
      {
        var r := pack.data.at(parsed);
        if r.len > pack.data.length - parsed {
          isOK := false;
          break;
        }
        var ok := AppendNet(r, pack, false);
        if !ok {
          isOK := false;
          break;
        }
        OneMore(old(apps), recs, r, old(pack.pack_nn));
        parsed := parsed + r.len;
        recs := recs + [r];
      }
      assert recs == Records(pack.data, 0) by {
        assert Records(pack.data, parsed) == [];
      }
    }
  }

  /** An application after some records of a packet, and the packet's number then. */
  function AppAfter(apps: seq<App>, recs: seq<Record>, nn: int, pid: int): App
    decreases |recs|, 0
  {
    if recs == [] then AppOf(apps, pid)
    else
      var front, r := recs[..|recs| - 1], recs[|recs| - 1];
      var before := AppAfter(apps, front, nn, pid);
      if r.pid == pid then Taken(before, r, NumberAfter(apps, front, nn), false).0 else before
  }

  function NumberAfter(apps: seq<App>, recs: seq<Record>, nn: int): int
    decreases |recs|, 1
  {
    if recs == [] then nn
    else
      var front, r := recs[..|recs| - 1], recs[|recs| - 1];
      Taken(AppAfter(apps, front, nn, r.pid), r, NumberAfter(apps, front, nn), false).1
  }

  lemma OneMore(apps: seq<App>, recs: seq<Record>, r: Record, nn: int)
    ensures Lengths(recs + [r]) == Lengths(recs) + r.len
    ensures var taken := Taken(AppAfter(apps, recs, nn, r.pid), r, NumberAfter(apps, recs, nn), false);
      && NumberAfter(apps, recs + [r], nn) == taken.1
      && forall p :: AppAfter(apps, recs + [r], nn, p) == if p == r.pid then taken.0 else AppAfter(apps, recs, nn, p)
  {
    assert (recs + [r])[..|recs|] == recs;
  }

  lemma NoneYet(apps: seq<App>, nn: int)
    ensures Lengths([]) == 0 && NumberAfter(apps, [], nn) == nn
    ensures forall p :: AppAfter(apps, [], nn, p) == AppOf(apps, p)
  {
  }

  /** Records of one application are taken as if there were no other. */
  lemma {:induction false} UniformTaken(apps: seq<App>, recs: seq<Record>, nn: int, pid: int, p: int)
    requires Uniform(recs, pid)
    ensures NumberAfter(apps, recs, nn) == AllTaken(AppOf(apps, pid), recs, nn).1
    ensures AppAfter(apps, recs, nn, p) == if p == pid then AllTaken(AppOf(apps, pid), recs, nn).0 else AppOf(apps, p)
  {
    if recs != [] {
      UniformTaken(apps, recs[..|recs| - 1], nn, pid, p);
      UniformTaken(apps, recs[..|recs| - 1], nn, pid, pid);
    }
  }

  predicate IsNew(apps: seq<App>, r: Record, nn: int) {
    r.logType != APP && nn > AppOf(apps, r.pid).lastPackNN
  }

  /** The first record of a packet that is new to its application. */
  function FirstNew(apps: seq<App>, recs: seq<Record>, nn: int): (k: nat)
    ensures k <= |recs| && (k < |recs| ==> IsNew(apps, recs[k], nn))
    ensures forall i :: 0 <= i < k ==> !IsNew(apps, recs[i], nn)
  {
    if recs == [] then 0
    else
      var n := |recs| - 1;
      var k := FirstNew(apps, recs[..n], nn);
      if k < n || IsNew(apps, recs[n], nn) then k else n + 1
  }

  function OfApp(recs: seq<Record>, pid: int): seq<Record> {
    if recs == [] then []
    else
      var n := |recs| - 1;
      OfApp(recs[..n], pid) + if recs[n].pid == pid && recs[n].logType != APP then [recs[n]] else []
  }

  lemma OfAppStep(recs: seq<Record>, k: nat, pid: int)
    requires recs != [] && k <= |recs|
    ensures var n := |recs| - 1;
      OfApp(recs[k..], pid) ==
        if k > n then []
        else OfApp(recs[..n][k..], pid) + if recs[n].pid == pid && recs[n].logType != APP then [recs[n]] else []
  {
    var n := |recs| - 1;
    if k <= n {
      assert recs[k..][..n - k] == recs[..n][k..];
    }
  }

  lemma TakenIs(app: App, r: Record, nn: int)
    ensures var (after, number) := Taken(app, r, nn, false); var checked := nn > app.lastPackNN && nn > 0;
      if r.logType == APP || (nn > 0 && !checked) then
        after.taken == app.taken && after.lastPackNN == app.lastPackNN && number == nn
      else
        && after.taken == app.taken + [r]
        && after.lastPackNN == (if checked then nn else app.lastPackNN) && number == if checked then -nn else nn
  {
  }

  /** A numbered packet, whatever applications its records belong to. From the first record on that is new to
      its application everything is taken, for all applications, and only that application keeps the number. */
  lemma {:induction false} MixedPacket(apps: seq<App>, recs: seq<Record>, nn: int, pid: int)
    requires nn > 0
    ensures var k := FirstNew(apps, recs, nn);
      && NumberAfter(apps, recs, nn) == (if k < |recs| then -nn else nn)
      && AppAfter(apps, recs, nn, pid).taken == AppOf(apps, pid).taken + OfApp(recs[k..], pid)
      && AppAfter(apps, recs, nn, pid).lastPackNN ==
           if k < |recs| && recs[k].pid == pid then nn else AppOf(apps, pid).lastPackNN
  {
    hide Taken, AppOf;
    if recs != [] {
      var n := |recs| - 1;
      var k := FirstNew(apps, recs, nn);
      MixedPacket(apps, recs[..n], nn, pid);
      MixedPacket(apps, recs[..n], nn, recs[n].pid);
      OfAppStep(recs, k, pid);
      TakenIs(AppAfter(apps, recs[..n], nn, recs[n].pid), recs[n], NumberAfter(apps, recs[..n], nn));
    }
  }

  /** A packet that arrives again adds nothing if and only if all that was new in it was of the one application
      that kept the number. */
  lemma RepeatedMixed(apps: seq<App>, now: seq<App>, recs: seq<Record>, nn: int)
    requires nn > 0 && forall p :: AppOf(now, p) == AppAfter(apps, recs, nn, p)
    ensures (forall p :: AppAfter(now, recs, nn, p).taken == AppOf(now, p).taken) <==>
            (forall i, j :: 0 <= i < |recs| && 0 <= j < |recs| && IsNew(apps, recs[i], nn) && IsNew(apps, recs[j], nn)
               ==> recs[i].pid == recs[j].pid)
  {
    var k, again := FirstNew(apps, recs, nn), FirstNew(now, recs, nn);
    forall p
      ensures AppOf(now, p).lastPackNN ==
                if k < |recs| && recs[k].pid == p then nn else AppOf(apps, p).lastPackNN
      ensures AppAfter(now, recs, nn, p).taken == AppOf(now, p).taken + OfApp(recs[again..], p)
    {
      MixedPacket(apps, recs, nn, p);
      MixedPacket(now, recs, nn, p);
    }
    if again < |recs| {
      var p := recs[again].pid;
      FirstIsTaken(recs[again..]);
      assert |AppAfter(now, recs, nn, p).taken| > |AppOf(now, p).taken|;
      assert IsNew(now, recs[again], nn) && IsNew(apps, recs[again], nn) && recs[again].pid != recs[k].pid;
    } else {
      assert forall i :: 0 <= i < |recs| ==> !IsNew(now, recs[i], nn);
    }
  }

  lemma {:induction false} FirstIsTaken(recs: seq<Record>)
    requires recs != [] && recs[0].logType != APP
    ensures OfApp(recs, recs[0].pid) != []
  {
    if |recs| > 1 {
      FirstIsTaken(recs[..|recs| - 1]);
    }
  }

  // What a run of packets leaves behind.

  /** The records that the packet number is checked for. */
  function Kept(recs: seq<Record>): seq<Record> {
    if recs == [] then []
    else Kept(recs[..|recs| - 1]) + if recs[|recs| - 1].logType == APP then [] else [recs[|recs| - 1]]
  }

  /** A numbered packet is taken as a whole or not at all. */
  lemma {:induction false} WholePacket(app: App, recs: seq<Record>, nn: int)
    requires nn > 0
    ensures var after, checked := AllTaken(app, recs, nn), Kept(recs) != [] && nn > app.lastPackNN;
      && after.0.taken == app.taken + (if nn > app.lastPackNN then Kept(recs) else [])
      && after.0.lastPackNN == (if checked then nn else app.lastPackNN)
      && after.1 == (if checked then -nn else nn)
      && after.0.pid == app.pid
  {
    if recs != [] {
      WholePacket(app, recs[..|recs| - 1], nn);
    }
  }

  predicate Follows(last: nat, recs: seq<Record>, k: nat)
    requires k < |recs|
  {
    var previous, nn := if k == 0 then last else recs[k - 1].nn, recs[k].nn;
    nn > 0 && (previous == 0xFFFF_FFFF || nn == previous || nn == previous + 1)
  }

  /** Each record has the number of the one before it, or the next one. */
  ghost predicate InSequence(last: nat, recs: seq<Record>) {
    forall k: nat {:trigger Follows(last, recs, k)} :: k < |recs| ==> Follows(last, recs, k)
  }

  lemma InSequenceFront(last: nat, recs: seq<Record>, n: nat)
    requires InSequence(last, recs) && n <= |recs|
    ensures InSequence(last, recs[..n])
  {
    forall k: nat | k < n ensures Follows(last, recs[..n], k) {
      assert Follows(last, recs, k);
    }
  }

  /** As long as records are numbered in sequence none is counted as lost. */
  lemma {:induction false} NoneLost(app: App, recs: seq<Record>, nn: int)
    requires nn > app.lastPackNN && nn > 0 && InSequence(app.lastRecNN, Kept(recs))
    ensures var after := AllTaken(app, recs, nn).0;
      && after.lost == app.lost
      && after.lastRecNN == if Kept(recs) == [] then app.lastRecNN else Kept(recs)[|Kept(recs)| - 1].nn
  {
    if recs != [] {
      var front := recs[..|recs| - 1];
      assert Kept(front) <= Kept(recs);
      assert InSequence(app.lastRecNN, Kept(front)) by {
        InSequenceFront(app.lastRecNN, Kept(recs), |Kept(front)|);
      }
      NoneLost(app, front, nn);
      WholePacket(app, front, nn);
      assert |Kept(recs)| > |Kept(front)| ==> Follows(app.lastRecNN, Kept(recs), |Kept(front)|);
    }
  }

  // How many records are counted as lost, said of the numbers alone.

  /** The numbers of those records that have one. */
  function Numbers(recs: seq<Record>): seq<nat> {
    if recs == [] then []
    else
      var n := |recs| - 1;
      Numbers(recs[..n]) + if recs[n].nn == 0 then [] else [recs[n].nn]
  }

  function LastNumber(previous: nat, ns: seq<nat>): nat {
    if ns == [] then previous else ns[|ns| - 1]
  }

  /** The sum of all differences, upwards and downwards. Nothing is known before the first number of all. */
  function Travelled(previous: nat, ns: seq<nat>): nat {
    if ns == [] then 0
    else
      var n := |ns| - 1;
      var from, to := LastNumber(previous, ns[..n]), ns[n];
      Travelled(previous, ns[..n])
      + if from == 0xFFFF_FFFF then 0 else if to > from then to - from else from - to
  }

  /** How many steps go to the next number. */
  function NextOnes(previous: nat, ns: seq<nat>): nat {
    if ns == [] then 0
    else
      var n := |ns| - 1;
      NextOnes(previous, ns[..n])
      + if LastNumber(previous, ns[..n]) != 0xFFFF_FFFF && ns[n] == LastNumber(previous, ns[..n]) + 1 then 1 else 0
  }

  /** Records whose numbers never fall travel from the first to the last. */
  lemma {:induction false} RisingTravels(previous: nat, ns: seq<nat>)
    requires previous < 0xFFFF_FFFF && forall k :: 0 <= k < |ns| ==> previous <= ns[k] < 0xFFFF_FFFF
    requires forall j, k :: 0 <= j < k < |ns| ==> ns[j] <= ns[k]
    ensures Travelled(previous, ns) == LastNumber(previous, ns) - previous
  {
    if ns != [] {
      RisingTravels(previous, ns[..|ns| - 1]);
    }
  }

  /** From app to later the records were counted: what is lost, as a 32-bit number, is the way travelled less one
      for each step to the next number. */
  ghost predicate Accounted(app: App, later: App, recs: seq<Record>) {
    var previous, ns := app.lastRecNN, Numbers(recs);
    && later.lost == (app.lost + Travelled(previous, ns) - NextOnes(previous, ns)) % 0x1_0000_0000
    && later.lastRecNN == LastNumber(previous, ns)
  }

  lemma {:induction false} NumbersPlus(a: seq<Record>, b: seq<Record>)
    ensures Numbers(a + b) == Numbers(a) + Numbers(b)
  {
    if b == [] {
      assert a + b == a;
    } else {
      assert (a + b)[..|a + b| - 1] == a + b[..|b| - 1];
      NumbersPlus(a, b[..|b| - 1]);
    }
  }

  lemma {:induction false} WayPlus(previous: nat, a: seq<nat>, b: seq<nat>)
    ensures var between := LastNumber(previous, a);
      && LastNumber(previous, a + b) == LastNumber(between, b)
      && Travelled(previous, a + b) == Travelled(previous, a) + Travelled(between, b)
      && NextOnes(previous, a + b) == NextOnes(previous, a) + NextOnes(between, b)
  {
    if b == [] {
      assert a + b == a;
    } else {
      assert (a + b)[..|a + b| - 1] == a + b[..|b| - 1];
      WayPlus(previous, a, b[..|b| - 1]);
    }
  }

  lemma AccountedPlus(app: App, between: App, later: App, a: seq<Record>, b: seq<Record>)
    requires Accounted(app, between, a) && Accounted(between, later, b)
    ensures Accounted(app, later, a + b)
  {
    NumbersPlus(a, b);
    WayPlus(app.lastRecNN, Numbers(a), Numbers(b));
    var x: int, y: int := Travelled(app.lastRecNN, Numbers(a)), NextOnes(app.lastRecNN, Numbers(a));
    var z: int, w: int := Travelled(between.lastRecNN, Numbers(b)), NextOnes(between.lastRecNN, Numbers(b));
    hide Travelled, NextOnes, Numbers, LastNumber;
    SumCut(app.lost + x - y, z - w);
    assert (app.lost + x - y) + (z - w) == app.lost + (x + z) - (y + w);
    assert later.lost == (between.lost + (z - w)) % 0x1_0000_0000;
  }

  lemma SumCut(a: int, b: int)
    ensures (a % 0x1_0000_0000 + b) % 0x1_0000_0000 == (a + b) % 0x1_0000_0000
  {
  }

  lemma CountedOne(app: App, r: Record)
    ensures Accounted(app, Counted(app, r, false), [r])
  {
    assert [r][..0] == [] && [r.nn as nat][..0] == [];
  }

  lemma CountedNone(app: App)
    ensures Accounted(app, app, [])
  {
  }

  lemma {:induction false} LostInPacket(app: App, recs: seq<Record>, nn: int)
    requires nn > app.lastPackNN && nn > 0
    ensures Accounted(app, AllTaken(app, recs, nn).0, Kept(recs))
  {
    hide Accounted, Counted;
    if recs == [] {
      CountedNone(app);
    } else {
      var front, r := recs[..|recs| - 1], recs[|recs| - 1];
      var before := AllTaken(app, front, nn);
      LostInPacket(app, front, nn);
      WholePacket(app, front, nn);
      if r.logType == APP {
        assert Kept(recs) == Kept(front);
        SameNumbers(app, before.0, Taken(before.0, r, before.1, false).0, Kept(front));
      } else {
        CountedOne(before.0, r);
        CountedAnyway(before.0, r, nn);
        AccountedPlus(app, before.0, Counted(before.0, r, false), Kept(front), [r]);
        SameNumbers(app, Counted(before.0, r, false), Taken(before.0, r, before.1, false).0, Kept(front) + [r]);
      }
    }
  }

  lemma CountedAnyway(app: App, r: Record, nn: int)
    ensures var a, b := Counted(app, r, false), Counted(app.(lastPackNN := nn), r, false);
      a.lost == b.lost && a.lastRecNN == b.lastRecNN
  {
  }

  lemma SameNumbers(app: App, later: App, same: App, recs: seq<Record>)
    requires Accounted(app, later, recs) && same.lost == later.lost && same.lastRecNN == later.lastRecNN
    ensures Accounted(app, same, recs)
  {
  }

  /** A packet as it arrives: its process, its number and its records. */
  datatype Arrival = Arrival(pid: int, nn: int, recs: seq<Record>)

  /** An application after some packets, some of which are its own. */
  function After(app: App, arrivals: seq<Arrival>): App {
    if arrivals == [] then app
    else
      var before, a := After(app, arrivals[..|arrivals| - 1]), arrivals[|arrivals| - 1];
      if a.pid == app.pid then AllTaken(before, a.recs, a.nn).0 else before
  }

  ghost predicate Numbered(arrivals: seq<Arrival>) {
    forall i :: 0 <= i < |arrivals| ==> arrivals[i].nn > 0
  }

  predicate Counts(a: Arrival, pid: int) {
    a.pid == pid && Kept(a.recs) != []
  }

  /** The packet's number is greater than all before it. */
  ghost predicate IsMaximum(arrivals: seq<Arrival>, i: nat, pid: int, last: int)
    requires i < |arrivals|
  {
    && Counts(arrivals[i], pid) && arrivals[i].nn > last
    && forall j :: 0 <= j < i && Counts(arrivals[j], pid) ==> arrivals[j].nn < arrivals[i].nn
  }

  /** The records of those packets of an application whose numbers are greater than all before them. */
  ghost function Maxima(arrivals: seq<Arrival>, pid: int, last: int): seq<Record> {
    if arrivals == [] then []
    else
      var i := |arrivals| - 1;
      Maxima(arrivals[..i], pid, last) + if IsMaximum(arrivals, i, pid, last) then Kept(arrivals[i].recs) else []
  }

  /** The last number taken is the greatest one. */
  ghost predicate Greatest(arrivals: seq<Arrival>, pid: int, last: int, nn: int) {
    && last <= nn
    && (forall j :: 0 <= j < |arrivals| && Counts(arrivals[j], pid) ==> arrivals[j].nn <= nn)
    && (nn == last || exists j :: 0 <= j < |arrivals| && Counts(arrivals[j], pid) && arrivals[j].nn == nn)
  }

  /** However packets are repeated and reordered, exactly the maxima among them are taken. */
  lemma {:induction false} MaximaAreTaken(app: App, arrivals: seq<Arrival>)
    requires Numbered(arrivals)
    ensures After(app, arrivals).taken == app.taken + Maxima(arrivals, app.pid, app.lastPackNN)
    ensures Greatest(arrivals, app.pid, app.lastPackNN, After(app, arrivals).lastPackNN)
    ensures After(app, arrivals).pid == app.pid
  {
    hide Taken, AllTaken, Kept;
    if arrivals != [] {
      var before, a := arrivals[..|arrivals| - 1], arrivals[|arrivals| - 1];
      MaximaAreTaken(app, before);
      if a.pid == app.pid {
        WholePacket(After(app, before), a.recs, a.nn);
      }
    }
  }

  /** Over any run of packets of an application, what is lost is counted from the records that are taken. */
  lemma {:induction false} LostInRun(app: App, arrivals: seq<Arrival>)
    requires Numbered(arrivals)
    ensures Accounted(app, After(app, arrivals), Maxima(arrivals, app.pid, app.lastPackNN))
  {
    hide Accounted, Taken, AllTaken;
    if arrivals == [] {
      CountedNone(app);
    } else {
      var n := |arrivals| - 1;
      var front, a := arrivals[..n], arrivals[n];
      var before := After(app, front);
      LostInRun(app, front);
      MaximaAreTaken(app, front);
      var earlier := Maxima(front, app.pid, app.lastPackNN);
      if a.pid == app.pid && a.nn > before.lastPackNN {
        LostInPacket(before, a.recs, a.nn);
        AccountedPlus(app, before, After(app, arrivals), earlier, Kept(a.recs));
        assert Maxima(arrivals, app.pid, app.lastPackNN) == earlier + Kept(a.recs);
      } else {
        if a.pid == app.pid {
          NothingNew(before, a.recs, a.nn);
          SameNumbers(app, before, After(app, arrivals), earlier);
        }
        assert Maxima(arrivals, app.pid, app.lastPackNN) == earlier + [] == earlier;
      }
    }
  }

  lemma {:induction false} NothingNew(app: App, recs: seq<Record>, nn: int)
    requires 0 < nn <= app.lastPackNN
    ensures var after := AllTaken(app, recs, nn);
      after.0.lost == app.lost && after.0.lastRecNN == app.lastRecNN && after.0.lastPackNN == app.lastPackNN
      && after.1 == nn
  {
    if recs != [] {
      NothingNew(app, recs[..|recs| - 1], nn);
    }
  }

  lemma {:induction false} AppOfPid(apps: seq<App>, pid: int)
    ensures AppOf(apps, pid).pid == pid
  {
    if apps != [] && apps[|apps| - 1].pid != pid {
      AppOfPid(apps[..|apps| - 1], pid);
    }
  }

  /** The packets of one application each, as they arrive. */
  ghost function Arrivals(packs: seq<NetPack>, pids: seq<int>): seq<Arrival>
    requires |packs| == |pids|
    reads packs
  {
    seq(|packs|, (i: int) requires 0 <= i < |packs| reads packs =>
      Arrival(pids[i], packs[i].pack_nn, Records(packs[i].data, 0)))
  }

  /** Between a pause and the next one, whatever packets arrive, each application takes the records of
      exactly those packets whose number exceeds all before them. */
  method Receive(recorder: Recorder, packs: seq<NetPack>, ghost pids: seq<int>)
    requires recorder.Valid() && |packs| == |pids|
    requires forall i, j :: 0 <= i < j < |packs| ==> packs[i] != packs[j]
    requires forall i :: 0 <= i < |packs| ==> packs[i].pack_nn > 0 && Uniform(Records(packs[i].data, 0), pids[i])
    modifies recorder, packs`pack_nn
    ensures recorder.Valid()
    ensures forall pid :: AppOf(recorder.apps, pid).taken
                       == old(AppOf(recorder.apps, pid)).taken + Maxima(old(Arrivals(packs, pids)), pid, -1)
    ensures forall pid :: Accounted(old(AppOf(recorder.apps, pid)).(lastRecNN := 0xFFFF_FFFF),
                                    AppOf(recorder.apps, pid), Maxima(old(Arrivals(packs, pids)), pid, -1))
  {
    hide Accounted, Maxima, Taken, AllTaken, AppAfter, NumberAfter;
    ghost var before, arrivals := recorder.apps, Arrivals(packs, pids);
    recorder.OnPaused();
    PausedApps(before, recorder.apps);
    ghost var paused := recorder.apps;
    for k := 0 to |packs|
      invariant recorder.Valid() && forall i :: k <= i < |packs| ==> packs[i].pack_nn == arrivals[i].nn
      invariant forall pid :: AppOf(recorder.apps, pid) == After(AppOf(paused, pid), arrivals[..k])
    {
      ghost var now := recorder.apps;
      var ok := recorder.RecordNetPack(packs[k]);
      forall pid
        ensures AppOf(recorder.apps, pid) == After(AppOf(paused, pid), arrivals[..k + 1])
      {
        AppOfPid(paused, pid);
        UniformTaken(now, arrivals[k].recs, arrivals[k].nn, pids[k], pid);
        assert arrivals[..k + 1][..k] == arrivals[..k];
      }
    }
    assert arrivals[..|packs|] == arrivals;
    forall pid
      ensures AppOf(recorder.apps, pid).taken == AppOf(before, pid).taken + Maxima(arrivals, pid, -1)
      ensures Accounted(AppOf(before, pid).(lastRecNN := 0xFFFF_FFFF), AppOf(recorder.apps, pid),
                        Maxima(arrivals, pid, -1))
    {
      AppOfPid(paused, pid);
      AfterPause(AppOf(before, pid), arrivals);
    }
  }

  lemma AfterPause(app: App, arrivals: seq<Arrival>)
    requires Numbered(arrivals)
    ensures After(Paused(app), arrivals).taken == app.taken + Maxima(arrivals, app.pid, -1)
    ensures Accounted(app.(lastRecNN := 0xFFFF_FFFF), After(Paused(app), arrivals), Maxima(arrivals, app.pid, -1))
  {
    MaximaAreTaken(Paused(app), arrivals);
    LostInRun(Paused(app), arrivals);
  }

  lemma PausedApps(apps: seq<App>, paused: seq<App>)
    requires |paused| == |apps| && forall k :: 0 <= k < |apps| ==> paused[k] == Paused(apps[k])
    ensures forall pid :: AppOf(paused, pid) == Paused(AppOf(apps, pid))
  {
    forall pid ensures AppOf(paused, pid) == Paused(AppOf(apps, pid)) {
      PausedApp(apps, paused, pid);
    }
  }

  lemma {:induction false} PausedApp(apps: seq<App>, paused: seq<App>, pid: int)
    requires |paused| == |apps| && forall k :: 0 <= k < |apps| ==> paused[k] == Paused(apps[k])
    ensures AppOf(paused, pid) == Paused(AppOf(apps, pid))
  {
    if apps != [] {
      PausedApp(apps[..|apps| - 1], paused[..|apps| - 1], pid);
    }
  }

  /** A packet that was taken, or an older one, adds nothing when it arrives again. */
  lemma RepeatedPacket(app: App, arrivals: seq<Arrival>, j: nat, again: Arrival)
    requires Numbered(arrivals) && j < |arrivals| && Counts(arrivals[j], app.pid)
    requires again.pid == app.pid && 0 < again.nn <= arrivals[j].nn
    ensures After(app, arrivals + [again]).taken == After(app, arrivals).taken
    ensures After(app, arrivals + [again]).lastPackNN == After(app, arrivals).lastPackNN
  {
    MaximaAreTaken(app, arrivals);
    WholePacket(After(app, arrivals), again.recs, again.nn);
    assert (arrivals + [again])[..|arrivals|] == arrivals;
  }

  /** The records read from an offset on, up to the first one that is too long or not valid. */
  function Records(d: Data, from: nat): seq<Record>
    decreases d.length - from
  {
    if from >= d.length || d.at(from).len > d.length - from || !IsValid(d.at(from)) then []
    else [d.at(from)] + Records(d, from + d.at(from).len)
  }

  function Lengths(recs: seq<Record>): int {
    if recs == [] then 0 else Lengths(recs[..|recs| - 1]) + recs[|recs| - 1].len
  }

  /** The records take up the data exactly. */
  predicate Tiled(d: Data, recs: seq<Record>) {
    Lengths(recs) == if d.length < 0 then 0 else d.length
  }

  /** A record stands at the offset and is taken: it lies within the data and has room for its texts. */
  predicate Stands(d: Data, at: int) {
    && 0 <= at < d.length && d.at(at).len <= d.length - at
    && var r := d.at(at);
    var size := 52 + r.cbApp + r.cbModule + r.cbFn + r.cbTrace;
    size <= r.len && 52 < r.len && (r.logType == TRACE || size < 1600 + 2 * 52)
  }

  /** The records are those that stand one after the other from an offset on, up to where none does. */
  lemma {:induction false} RecordsStand(d: Data, from: nat) returns (offsets: seq<int>)
    ensures |offsets| == |Records(d, from)| + 1 && offsets[0] == from
    ensures forall i :: 0 <= i < |offsets| - 1 ==>
              && Stands(d, offsets[i]) && Records(d, from)[i] == d.at(offsets[i])
              && offsets[i + 1] == offsets[i] + d.at(offsets[i]).len
    ensures !Stands(d, offsets[|offsets| - 1])
    ensures Lengths(Records(d, from)) == offsets[|offsets| - 1] - from
    decreases d.length - from
  {
    hide Lengths;
    if Stands(d, from) {
      var r, rest := d.at(from), Records(d, from + d.at(from).len);
      var more := RecordsStand(d, from + r.len);
      offsets := [from] + more;
      LengthsFront(r, rest);
    } else {
      offsets := [from];
      NoLength();
    }
  }

  lemma NoLength()
    ensures Lengths([]) == 0
  {
  }

  lemma {:induction false} LengthsFront(r: Record, recs: seq<Record>)
    ensures Lengths([r] + recs) == r.len + Lengths(recs)
  {
    if recs == [] {
      assert [r] + recs == [r] && [r][..0] == [];
    } else {
      assert ([r] + recs)[..|recs|] == [r] + recs[..|recs| - 1];
      LengthsFront(r, recs[..|recs| - 1]);
    }
  }

  ghost predicate Uniform(recs: seq<Record>, pid: int) {
    forall k :: 0 <= k < |recs| ==> recs[k].pid == pid
  }

  function AllTaken(app: App, recs: seq<Record>, nn: int): (App, int) {
    if recs == [] then (app, nn)
    else
      var before := AllTaken(app, recs[..|recs| - 1], nn);
      Taken(before.0, recs[|recs| - 1], before.1, false)
  }
}
