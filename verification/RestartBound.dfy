/** How often a display from the servers file that keeps failing is restarted before it is given up. */
module RestartBound {
  import opened Options
  import opened Network
  import opened Displays
  import opened Lifecycle
  import opened Shutdown

  /** A display name with the attempts configured for it. */
  datatype Limits = Limits(name: string, startAttempts: int, reservAttempts: int) {
    /** Starts and crashes that are tolerated; the first of each is, whatever is configured. */
    function Starts(): int { if startAttempts < 1 then 1 else startAttempts }

    function Reservs(): int { if reservAttempts < 1 then 1 else reservAttempts }

    predicate Loaded(r: Resources) { r.startAttempts == startAttempts && r.reservAttempts == reservAttempts }
  }

  /** The display of a name, unless it is being stopped or is not from the servers file. */
  function Live(ds: seq<Display>, name: string): (r: Option<Display>)
    ensures r.Some? ==> r.value.name == name && r.value in ds
  {
    var i := FirstNamed(ds, name);
    if i < |ds| && ds[i].status != Zombie && ds[i].displayType.origin == FromFile then Some(ds[i]) else None
  }

  predicate IsFailure(exit: Exit) {
    exit == OpenFailed || exit == Terminated || exit == Reserver
  }

  /** The step is one of a failing run: sessions end in failure, crashes follow closely, the limits stay. */
  predicate Fails(st: State, step: Step, l: Limits) {
    match step
    case Reaped(pid, exit, now, _) =>
      var d := Live(st.displays, l.name);
      d.Some? && d.value.pid == Some(pid) ==>
        IsFailure(exit) && (exit == Reserver ==> now != 0 && (d.value.lastReserv != 0 ==> Crash(d.value, now)))
    case Checked(db, _) => l.Loaded(LoadServerResources(db, l.name))
    case Rescanned(_, db, _) => l.Loaded(LoadServerResources(db, l.name))
    case Added(db, _) => l.Loaded(LoadServerResources(db, l.name))
    case Stopped => true
    case TakenOver(_, _, _, _, _) => true
  }

  predicate FailingRun(st: State, steps: seq<Step>, l: Limits)
    decreases steps
  {
    steps == [] || (Fails(st, steps[0], l) && FailingRun(Next(st, steps[0]), steps[1..], l))
  }

  /** The step ends the display's session, and the display is to be started again. */
  predicate RestartedBy(st: State, step: Step, name: string) {
    && step.Reaped? && Live(st.displays, name).Some? && Live(st.displays, name).value.pid == Some(step.pid)
    && st.alive && Next(st, step).alive && Live(Next(st, step).displays, name).Some?
  }

  /** Restarts until the display is first stopped. */
  function Restarts(st: State, steps: seq<Step>, name: string): nat
    decreases steps
  {
    if steps == [] || Live(st.displays, name) == None then 0
    else (if RestartedBy(st, steps[0], name) then 1 else 0) + Restarts(Next(st, steps[0]), steps[1..], name)
  }

  // ---------------------------------------------------------------- the measure

  predicate OnCount(d: Display, l: Limits) {
    && (d.pid.Some? ==> l.Loaded(d.resources))
    && d.startTries <= l.Starts() - 1
    && d.reservTries <= l.Reservs() - 1
    && (d.lastReserv == 0 ==> d.reservTries == 0)
  }

  /** Crashes still tolerated. */
  function CrashesLeft(d: Display, l: Limits): int {
    if d.lastReserv == 0 then l.Reservs() else l.Reservs() - 1 - d.reservTries
  }

  /** Crashes left first, then failed starts. */
  function Remaining(d: Display, l: Limits): int {
    CrashesLeft(d, l) * l.Starts() + (l.Starts() - 1 - d.startTries)
  }

  predicate SameCount(d: Display, e: Display, l: Limits) {
    && e.startTries == d.startTries && e.reservTries == d.reservTries && e.lastReserv == d.lastReserv
    && (e.pid.Some? ==> l.Loaded(e.resources))
  }

  predicate IsLive(d: Display) {
    d.status != Zombie && d.displayType.origin == FromFile
  }

  /** A failed session uses up part of what remains. */
  lemma FailureCounts(d: Display, exit: Exit, now: int, l: Limits)
    requires OnCount(d, l) && d.pid.Some? && IsLive(d) && IsFailure(exit)
    requires exit == Reserver ==> now != 0 && (d.lastReserv != 0 ==> Crash(d, now))
    ensures var r := SessionExit(d, exit, now);
            r.Some? && IsLive(r.value) ==> OnCount(r.value, l) && Remaining(r.value, l) < Remaining(d, l)
  {
    var r := SessionExit(d, exit, now);
    if exit == Reserver && r.Some? && IsLive(r.value) {
      assert CrashesLeft(r.value, l) == CrashesLeft(d, l) - 1;
      Product(CrashesLeft(d, l), l.Starts());
    }
  }

  lemma Product(a: int, b: int)
    ensures (a - 1) * b == a * b - b
  {
  }

  lemma SameCountKeeps(d: Display, e: Display, l: Limits)
    requires OnCount(d, l) && SameCount(d, e, l)
    ensures OnCount(e, l) && Remaining(e, l) == Remaining(d, l)
  {
  }

  // ---------------------------------------------------------------- the list

  /** What became of the display of the name: it has the same count, or is no longer live. */
  predicate Carried(before: seq<Display>, after: seq<Display>, l: Limits) {
    && (Live(before, l.name) == None ==> Live(after, l.name) == None)
    && (Live(before, l.name).Some? && Live(after, l.name).Some? ==>
          SameCount(Live(before, l.name).value, Live(after, l.name).value, l))
  }

  lemma LiveAfterUpdate(st: State, i: nat, d: Display, name: string)
    requires i < |st.displays| && d.name == st.displays[i].name
    ensures var ds := st.displays; var f := FirstNamed(ds, name);
            && FirstNamed(ds[i := d], name) == f
            && Live(ds[i := d], name) == if i == f then (if IsLive(d) then Some(d) else None) else Live(ds, name)
  {
    FirstIs(st.displays[i := d], name, FirstNamed(st.displays, name));
  }

  /** With the live display gone, nothing live of its name is left. */
  lemma LiveIsRemoved(st: State, name: string)
    requires Inv(st) && FirstNamed(st.displays, name) < |st.displays|
    ensures Live(Replace(st.displays, FirstNamed(st.displays, name), None), name) == None
  {
    var ds, f := st.displays, FirstNamed(st.displays, name);
    assert forall k :: f < k < |ds| && ds[k].name == ds[f].name ==> ds[k].status == Zombie;
    hide Inv;
    var after := Replace(ds, f, None);
    var g := FirstNamed(after, name);
    if g < |after| {
      assert after[g] == ds[if g < f then g else g + 1];
    }
  }

  lemma OtherIsRemoved(ds: seq<Display>, i: nat, name: string)
    requires i < |ds| && i != FirstNamed(ds, name)
    ensures Live(Replace(ds, i, None), name) == Live(ds, name)
  {
    FirstAfter(ds, i, None, name);
    hide FirstNamed;
  }

  lemma LiveAfterReplace(st: State, i: nat, r: Option<Display>, name: string)
    requires Inv(st) && i < |st.displays|
    requires r.Some? ==> r.value.name == st.displays[i].name
    ensures Live(Replace(st.displays, i, r), name)
         == if i == FirstNamed(st.displays, name) then (if r.Some? && IsLive(r.value) then r else None)
            else Live(st.displays, name)
  {
    if r == None {
      hide Inv, Live;
      if i == FirstNamed(st.displays, name) {
        LiveIsRemoved(st, name);
      } else {
        OtherIsRemoved(st.displays, i, name);
      }
    } else {
      LiveAfterUpdate(st, i, r.value, name);
    }
  }

  lemma {:induction false} ScanCarries(ds: seq<Display>, lines: seq<seq<string>>, l: Limits)
    requires Live(ds, l.name).Some? && OnCount(Live(ds, l.name).value, l)
    ensures var r := Live(ScanServers(ds, lines), l.name);
            r.Some? && SameCount(Live(ds, l.name).value, r.value, l) && r.value.pid == Live(ds, l.name).value.pid
    decreases lines
  {
    if lines != [] {
      ParseCarries(ds, lines[0], l);
      ScanCarries(ParseDisplay(ds, lines[0]), lines[1..], l);
    }
  }

  lemma ParseCarries(ds: seq<Display>, words: seq<string>, l: Limits)
    requires Live(ds, l.name).Some? && OnCount(Live(ds, l.name).value, l)
    ensures var r := Live(ParseDisplay(ds, words), l.name);
            r.Some? && SameCount(Live(ds, l.name).value, r.value, l) && r.value.pid == Live(ds, l.name).value.pid
    ensures OnCount(Live(ParseDisplay(ds, words), l.name).value, l)
  {
    var after := ParseDisplay(ds, words);
    hide TypeOf;
    if |words| >= 2 {
      var i := FirstNamed(ds, words[0]);
      if i < |ds| {
        LiveAfterUpdate(State(ds, {}, true), i, after[i], l.name);
      } else {
        LiveAfterPrepend(after[0], ds, l.name);
      }
    }
  }

  lemma MarkCarries(ds: seq<Display>, l: Limits)
    requires Live(ds, l.name).Some? && OnCount(Live(ds, l.name).value, l)
    ensures var r := Live(MarkAll(ds), l.name);
            && r.Some? && SameCount(Live(ds, l.name).value, r.value, l) && r.value.pid == Live(ds, l.name).value.pid
            && OnCount(r.value, l)
  {
    FirstIs(MarkAll(ds), l.name, FirstNamed(ds, l.name));
  }

  lemma CheckOneCounts(d: Display, children: set<Pid>, db: Database, o: Outcome, l: Limits)
    requires OnCount(d, l) && d.name == l.name && l.Loaded(LoadServerResources(db, l.name))
    ensures var r := CheckDisplayStatus(d, children, db, o).display; r.Some? ==> SameCount(d, r.value, l)
    ensures var r := StartDisplay(d, children, db, o).display; r.Some? ==> SameCount(d, r.value, l)
  {
  }

  lemma {:induction false} CheckFromCarries(st: State, i: nat, db: Database, os: seq<Outcome>, l: Limits)
    requires Inv(st) && i <= |st.displays| && l.Loaded(LoadServerResources(db, l.name))
    requires Live(st.displays, l.name).Some? ==> OnCount(Live(st.displays, l.name).value, l)
    ensures Carried(st.displays, CheckFrom(st, i, db, os).displays, l)
    decreases |st.displays| - i
  {
    if i < |st.displays| {
      var r := CheckDisplayStatus(st.displays[i], st.children, db, OutcomeAt(os));
      CheckFits(st.displays[i], st.children, db, OutcomeAt(os));
      LiveAfterReplace(st, i, r.display, l.name);
      ReplaceKeeps(st, i, r);
      if i == FirstNamed(st.displays, l.name) && IsLive(st.displays[i]) {
        CheckOneCounts(st.displays[i], st.children, db, OutcomeAt(os), l);
      }
      CheckFromCarries(Update(st, i, r), if r.display == None then i else i + 1, db, if os == [] then [] else os[1..], l);
    }
  }

  /** What is true of the live display after a step, if there still is one. */
  predicate Kept(d: Display, after: seq<Display>, restarted: bool, l: Limits) {
    var r := Live(after, l.name);
    r.Some? ==> OnCount(r.value, l) && Remaining(r.value, l) <= Remaining(d, l) - if restarted then 1 else 0
  }

  lemma StopAllEndsIt(st: State, l: Limits)
    requires Inv(st)
    ensures Live(StopAll(st).displays, l.name) == None
  {
    StopAllLeavesZombies(st);
  }

  lemma ManagedStays(name: string, cls: Option<string>, link: Link, children: set<Pid>, db: Database, o: Outcome)
    ensures var r := StartDisplay(Managed(name, cls, link), children, db, o).display;
            r.Some? && r.value.name == name && r.value.displayType.origin == FromXdmcp
  {
  }

  lemma LiveAfterPrepend(x: Display, ds: seq<Display>, name: string)
    ensures Live([x] + ds, name) == if x.name == name then (if IsLive(x) then Some(x) else None) else Live(ds, name)
  {
    assert ([x] + ds)[1..] == ds;
  }

  lemma StopNamedCarries(st: State, name: string, other: string)
    requires Inv(st) && name != other
    ensures Live(StopNamed(st.displays, name), other) == Live(st.displays, other)
  {
    var i := FirstNamed(st.displays, name);
    if i < |st.displays| {
      StopFits(st.displays[i], st.children);
      LiveAfterReplace(st, i, StopDisplay(st.displays[i]), other);
    }
  }

  lemma TakeOverCarries(st: State, name: string, cls: Option<string>, link: Link, db: Database, o: Outcome, l: Limits)
    requires Inv(st)
    ensures var after := Live(TakeOver(st, name, cls, link, db, o).displays, l.name);
            after == if name == l.name then None else Live(st.displays, l.name)
  {
    var rest := StopNamed(st.displays, name);
    if name != l.name {
      StopNamedCarries(st, name, l.name);
    }
    ManagedStays(name, cls, link, st.children, db, o);
    hide Inv, StartDisplay, StopNamed, Live, FirstNamed;
    var r := StartDisplay(Managed(name, cls, link), st.children, db, o).display;
    LiveAfterPrepend(r.value, rest, l.name);
    assert TakeOver(st, name, cls, link, db, o).displays == [r.value] + rest;
  }

  lemma DispatchCarries(st: State, pid: Pid, exit: Exit, now: int, l: Limits)
    requires Inv(st) && Live(st.displays, l.name).Some? && OnCount(Live(st.displays, l.name).value, l)
    requires Fails(st, Reaped(pid, exit, now, None), l)
    ensures var d := Live(st.displays, l.name).value;
            Kept(d, Dispatch(st, pid, exit, now).displays, d.pid == Some(pid), l)
  {
    var ds, d, f := st.displays, Live(st.displays, l.name).value, FirstNamed(st.displays, l.name);
    var i, k := FirstWithPid(ds, pid), FirstWithServerPid(ds, pid);
    RemainingIsNat(d, l);
    if i < |ds| {
      var r := SessionExit(ds[i], exit, now);
      SessionExitFits(ds[i], st.children, exit, now);
      LiveAfterReplace(st, i, r, l.name);
      if i == f {
        FailureCounts(d, exit, now, l);
      } else if d.pid == Some(pid) {
        OneRole(st, pid, i, f);
      }
      hide Inv, Fails, SessionExit, OnCount, Remaining, Fits;
    } else if k < |ds| {
      var r := ServerExit(ds[k]);
      ServerExitFits(ds[k], st.children);
      LiveAfterReplace(st, k, r, l.name);
      if k == f && r.Some? {
        SameCountKeeps(d, r.value, l);
      }
      hide Inv, Fails, OnCount, Remaining, Fits;
    }
  }

  lemma RereadCarries(st: State, lines: seq<seq<string>>, l: Limits)
    requires Live(st.displays, l.name).Some? && OnCount(Live(st.displays, l.name).value, l)
    ensures var d, r := Live(st.displays, l.name).value, Live(Reread(st, lines).displays, l.name);
            && r.Some? && r.value.pid == d.pid && SameCount(d, r.value, l)
            && OnCount(r.value, l) && Remaining(r.value, l) == Remaining(d, l)
  {
    MarkCarries(st.displays, l);
    ScanCarries(MarkAll(st.displays), lines, l);
    SameCountKeeps(Live(st.displays, l.name).value, Live(Reread(st, lines).displays, l.name).value, l);
  }

  /** In a failing run every step leaves the measure as it is, or lowers it when it restarts the display. */
  lemma FailingStep(st: State, step: Step, l: Limits)
    requires Inv(st) && Live(st.displays, l.name).Some? && OnCount(Live(st.displays, l.name).value, l)
    requires Fails(st, step, l)
    ensures Kept(Live(st.displays, l.name).value, Next(st, step).displays, RestartedBy(st, step, l.name), l)
  {
    hide Inv, Live, OnCount, Remaining, Reread, Dispatch, CheckFrom, TakeOver, StopAll;
    if st.alive {
      match step
      case Reaped(pid, exit, now, rescan) => ReapCarries(st, pid, exit, now, rescan, l);
      case Checked(db, os) => ChecksCarry(st, db, os, l);
      case Rescanned(lines, db, os) =>
        var mid := Reread(st, lines);
        RereadCarries(st, lines, l);
        RereadKeeps(st, lines);
        ChecksCarry(mid, db, os, l);
      case Added(db, o) => AddCarries(st, db, o, l);
      case Stopped => StopAllEndsIt(st, l);
      case TakenOver(name, cls, link, db, o) => TakeOverCarries(st, name, cls, link, db, o, l);
    }
  }

  lemma ReapCarries(st: State, pid: Pid, exit: Exit, now: int, rescan: Option<seq<seq<string>>>, l: Limits)
    requires Inv(st) && Live(st.displays, l.name).Some? && OnCount(Live(st.displays, l.name).value, l) && st.alive
    requires Fails(st, Reaped(pid, exit, now, rescan), l)
    ensures Kept(Live(st.displays, l.name).value, Next(st, Reaped(pid, exit, now, rescan)).displays,
                 RestartedBy(st, Reaped(pid, exit, now, rescan), l.name), l)
  {
    hide Inv, Live, OnCount, Remaining, Reread, Dispatch;
    if rescan.Some? {
      var mid := Reread(st, rescan.value);
      RereadCarries(st, rescan.value, l);
      RereadKeeps(st, rescan.value);
      if mid.alive {
        DispatchCarries(mid, pid, exit, now, l);
      }
    } else {
      DispatchCarries(st, pid, exit, now, l);
    }
  }

  lemma ChecksCarry(st: State, db: Database, os: seq<Outcome>, l: Limits)
    requires Inv(st) && Live(st.displays, l.name).Some? && OnCount(Live(st.displays, l.name).value, l)
    requires l.Loaded(LoadServerResources(db, l.name))
    ensures Kept(Live(st.displays, l.name).value, StartDisplays(st, db, os).displays, false, l)
  {
    var after := Live(StartDisplays(st, db, os).displays, l.name);
    CheckFromCarries(st, 0, db, os, l);
    hide CheckFrom, Inv;
    if after.Some? {
      SameCountKeeps(Live(st.displays, l.name).value, after.value, l);
    }
  }

  lemma AddCarries(st: State, db: Database, o: Outcome, l: Limits)
    requires Inv(st) && Live(st.displays, l.name).Some? && OnCount(Live(st.displays, l.name).value, l)
    requires l.Loaded(LoadServerResources(db, l.name))
    ensures Kept(Live(st.displays, l.name).value, AddDynamic(st, db, o).displays, false, l)
  {
    var ds, d, i := st.displays, Live(st.displays, l.name).value, FirstDynamic(st.displays);
    var after := Live(AddDynamic(st, db, o).displays, l.name);
    if i < |ds| {
      StartFits(ds[i], st.children, db, o);
      LiveAfterReplace(st, i, StartDisplay(ds[i], st.children, db, o).display, l.name);
      if i == FirstNamed(ds, l.name) {
        CheckOneCounts(d, st.children, db, o, l);
        if after.Some? {
          SameCountKeeps(d, after.value, l);
        }
      }
    }
  }

  /** The measure bounds the restarts still to come. */
  lemma {:induction false} RemainingBounds(st: State, steps: seq<Step>, l: Limits)
    requires Inv(st) && FailingRun(st, steps, l)
    requires Live(st.displays, l.name).Some? && OnCount(Live(st.displays, l.name).value, l)
    ensures Restarts(st, steps, l.name) <= Remaining(Live(st.displays, l.name).value, l)
    decreases steps
  {
    var d := Live(st.displays, l.name).value;
    if steps == [] {
      RemainingIsNat(d, l);
    } else {
      var next := Next(st, steps[0]);
      FailingStep(st, steps[0], l);
      StepKeeps(st, steps[0]);
      if Live(next.displays, l.name).Some? {
        RemainingBounds(next, steps[1..], l);
      } else {
        RemainingIsNat(d, l);
      }
    }
  }

  lemma RemainingIsNat(d: Display, l: Limits)
    requires OnCount(d, l)
    ensures 0 <= Remaining(d, l)
  {
    assert 0 <= CrashesLeft(d, l) * l.Starts();
  }

  /** A display that has not failed yet. */
  predicate Fresh(d: Display, l: Limits) {
    d.startTries == 0 && d.reservTries == 0 && d.lastReserv == 0 && (d.pid.Some? ==> l.Loaded(d.resources))
  }

  /** In a failing run a fresh display is restarted at most (r + 1) * s - 1 times before it is stopped. */
  lemma RestartsAreBounded(st: State, steps: seq<Step>, l: Limits)
    requires Inv(st) && FailingRun(st, steps, l)
    requires Live(st.displays, l.name).Some? && Fresh(Live(st.displays, l.name).value, l)
    ensures Restarts(st, steps, l.name) <= (l.Reservs() + 1) * l.Starts() - 1
  {
    RemainingBounds(st, steps, l);
    assert (l.Reservs() + 1) * l.Starts() == l.Reservs() * l.Starts() + l.Starts();
  }

  // ---------------------------------------------------------------- the bound is reached

  /** A local display with server 1 and session 2, after some failures. */
  function Busy(l: Limits, starts: nat, crashes: nat, last: int): Display {
    Display(l.name, None, Some([]), DisplayType(Local, Permanent, FromFile), Running, Some(2), Some(1), OldEntry, starts, crashes, last,
            Resources(l.startAttempts, l.reservAttempts, false), NO_LINK)
  }

  function Alone(d: Display): State {
    State([d], {1, 2}, true)
  }

  function Configured(l: Limits): Database {
    map[l.name := Resources(l.startAttempts, l.reservAttempts, false)]
  }

  const RESTART := Outcome(Some(1), Some(2))

  /** The session fails, its server is reaped, and both are started again. */
  function Cycle(l: Limits, exit: Exit): seq<Step> {
    [Reaped(2, exit, 1, None), Reaped(1, Unknown, 1, None), Checked(Configured(l), [RESTART])]
  }

  /** The longest failing run: as many failed starts as are tolerated before every tolerated crash. */
  function Worst(l: Limits, starts: nat, crashes: nat, last: int): seq<Step>
    requires starts < l.Starts()
    decreases if last == 0 then 1 else 0, l.reservAttempts - crashes, l.Starts() - starts
  {
    if starts + 1 < l.startAttempts then Cycle(l, OpenFailed) + Worst(l, starts + 1, crashes, last)
    else if last == 0 then Cycle(l, Reserver) + Worst(l, 0, 0, 1)
    else if crashes + 1 < l.reservAttempts then Cycle(l, Reserver) + Worst(l, 0, crashes + 1, 1)
    else []
  }

  lemma StartsAgain(l: Limits, d: Display)
    requires d == Busy(l, d.startTries, d.reservTries, d.lastReserv).(status := NotRunning, pid := None, serverPid := None)
    ensures Next(State([d], {}, true), Checked(Configured(l), [RESTART])) == Alone(Busy(l, d.startTries, d.reservTries, d.lastReserv))
  {
    CheckVisitsEachOnce([], [d], {}, Configured(l), [RESTART], true);
    assert [] + [d] == [d];
  }

  lemma CycleRestarts(l: Limits, starts: nat, crashes: nat, last: int, exit: Exit, after: Display, rest: seq<Step>)
    requires after == Busy(l, after.startTries, after.reservTries, after.lastReserv)
    requires SessionExit(Busy(l, starts, crashes, last), exit, 1) == Some(after.(status := Phoenix, pid := None))
    requires IsFailure(exit) && (exit == Reserver && last != 0 ==> Crash(Busy(l, starts, crashes, last), 1))
    requires FailingRun(Alone(after), rest, l)
    ensures FailingRun(Alone(Busy(l, starts, crashes, last)), Cycle(l, exit) + rest, l)
    ensures Restarts(Alone(Busy(l, starts, crashes, last)), Cycle(l, exit) + rest, l.name) == 1 + Restarts(Alone(after), rest, l.name)
  {
    var steps, st := Cycle(l, exit) + rest, Alone(Busy(l, starts, crashes, last));
    var down := State([after.(status := Phoenix, pid := None)], {1}, true);
    var ready := State([after.(status := NotRunning, pid := None, serverPid := None)], {}, true);
    assert Next(st, steps[0]) == down;
    assert Next(down, steps[1]) == ready;
    StartsAgain(l, ready.displays[0]);
    assert steps[1..][0] == steps[1] && steps[1..][1..][0] == steps[2] && steps[1..][1..][1..] == rest;
    OneStep(ready, steps[1..][1..], l);
    OneStep(down, steps[1..], l);
    OneStep(st, steps, l);
  }

  lemma OneStep(st: State, steps: seq<Step>, l: Limits)
    requires steps != [] && Live(st.displays, l.name).Some?
    ensures Restarts(st, steps, l.name)
         == (if RestartedBy(st, steps[0], l.name) then 1 else 0) + Restarts(Next(st, steps[0]), steps[1..], l.name)
    ensures FailingRun(st, steps, l) <==> Fails(st, steps[0], l) && FailingRun(Next(st, steps[0]), steps[1..], l)
  {
  }

  lemma {:induction false} WorstIsReached(l: Limits, starts: nat, crashes: nat, last: int)
    requires starts < l.Starts() && crashes < l.Reservs() && (last == 0 ==> crashes == 0) && (last == 0 || last == 1)
    ensures var d := Busy(l, starts, crashes, last);
            FailingRun(Alone(d), Worst(l, starts, crashes, last), l)
            && Restarts(Alone(d), Worst(l, starts, crashes, last), l.name) == Remaining(d, l)
    decreases if last == 0 then 1 else 0, l.reservAttempts - crashes, l.Starts() - starts
  {
    hide FailingRun, Restarts, Remaining;
    var d := Busy(l, starts, crashes, last);
    BusyRemaining(l, starts, crashes, last);
    if starts + 1 < l.startAttempts {
      WorstIsReached(l, starts + 1, crashes, last);
      BusyRemaining(l, starts + 1, crashes, last);
      CycleRestarts(l, starts, crashes, last, OpenFailed, Busy(l, starts + 1, crashes, last), Worst(l, starts + 1, crashes, last));
    } else if last == 0 {
      WorstIsReached(l, 0, 0, 1);
      BusyRemaining(l, 0, 0, 1);
      CycleRestarts(l, starts, crashes, last, Reserver, Busy(l, 0, 0, 1), Worst(l, 0, 0, 1));
    } else if crashes + 1 < l.reservAttempts {
      WorstIsReached(l, 0, crashes + 1, 1);
      BusyRemaining(l, 0, crashes + 1, 1);
      CycleRestarts(l, starts, crashes, last, Reserver, Busy(l, 0, crashes + 1, 1), Worst(l, 0, crashes + 1, 1));
    } else {
      EmptyRun(Alone(d), l);
    }
  }

  lemma EmptyRun(st: State, l: Limits)
    ensures FailingRun(st, [], l) && Restarts(st, [], l.name) == 0
  {
  }

  lemma BusyRemaining(l: Limits, starts: nat, crashes: nat, last: int)
    ensures Remaining(Busy(l, starts, crashes, last), l)
         == if last == 0 then l.Reservs() * l.Starts() + (l.Starts() - 1 - starts)
            else (l.Reservs() - 1) * l.Starts() - crashes * l.Starts() + (l.Starts() - 1 - starts)
    ensures (crashes + 1) * l.Starts() == crashes * l.Starts() + l.Starts()
    ensures (l.Reservs() - 1) * l.Starts() == l.Reservs() * l.Starts() - l.Starts()
    ensures l.Reservs() == crashes + 1 ==> (l.Reservs() - 1) * l.Starts() == crashes * l.Starts()
  {
    assert (l.Reservs() - 1 - crashes) * l.Starts() == (l.Reservs() - 1) * l.Starts() - crashes * l.Starts();
  }

  /** For any limits there is a failing run with exactly as many restarts as the bound allows. */
  lemma BoundIsTight(l: Limits)
    ensures exists st: State, steps: seq<Step> ::
              && Inv(st) && FailingRun(st, steps, l) && Live(st.displays, l.name).Some?
              && Fresh(Live(st.displays, l.name).value, l)
              && Restarts(st, steps, l.name) == (l.Reservs() + 1) * l.Starts() - 1
  {
    var st, steps := Alone(Busy(l, 0, 0, 0)), Worst(l, 0, 0, 0);
    WorstIsReached(l, 0, 0, 0);
    BusyRemaining(l, 0, 0, 0);
    assert (l.Reservs() + 1) * l.Starts() == l.Reservs() * l.Starts() + l.Starts();
    assert Inv(st);
  }
}
