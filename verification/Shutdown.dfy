/** Going over the list, and what is left of the displays after everything was stopped. */
module Shutdown {
  import opened Bounds
  import opened Options
  import opened Network
  import opened Displays
  import opened Lifecycle
  import opened Rescans

  // ---------------------------------------------------------------- every display is visited once

  function AsList(r: Option<Display>): seq<Display> {
    if r == None then [] else [r.value]
  }

  /** Each display on its own, in order. */
  function StopEach(ds: seq<Display>): seq<Display> {
    if ds == [] then [] else AsList(StopDisplay(ds[0])) + StopEach(ds[1..])
  }

  /** A list of displays and the unreaped children. */
  datatype Checks = Checks(displays: seq<Display>, children: set<Pid>)

  function CheckEach(ds: seq<Display>, children: set<Pid>, db: Database, os: seq<Outcome>): Checks
    decreases ds
  {
    if ds == [] then Checks([], children)
    else
      var r := CheckDisplayStatus(ds[0], children, db, OutcomeAt(os));
      var rest := CheckEach(ds[1..], r.children, db, if os == [] then [] else os[1..]);
      Checks(AsList(r.display) + rest.displays, rest.children)
  }

  lemma ReplaceMiddle(done: seq<Display>, rest: seq<Display>, r: Option<Display>)
    requires rest != []
    ensures Replace(done + rest, |done|, r) == (done + AsList(r)) + rest[1..]
    ensures |done + AsList(r)| == if r == None then |done| else |done| + 1
  {
  }

  lemma StopFromStep(done: seq<Display>, rest: seq<Display>)
    requires rest != []
    ensures var more := done + AsList(StopDisplay(rest[0]));
            StopFrom(done + rest, |done|) == StopFrom(more + rest[1..], |more|)
  {
    hide StopDisplay;
    ReplaceMiddle(done, rest, StopDisplay(rest[0]));
    assert (done + rest)[|done|] == rest[0];
  }

  /** The loop that unlinks as it goes stops each of the original displays exactly once. */
  lemma {:induction false} StopVisitsEachOnce(done: seq<Display>, rest: seq<Display>)
    ensures StopFrom(done + rest, |done|) == done + StopEach(rest)
    decreases rest
  {
    hide StopDisplay, AsList, Replace;
    if rest == [] {
      assert done + [] == done;
    } else {
      StopFromStep(done, rest);
      StopVisitsEachOnce(done + AsList(StopDisplay(rest[0])), rest[1..]);
      assert StopEach(rest) == AsList(StopDisplay(rest[0])) + StopEach(rest[1..]);
      hide StopFrom, StopEach;
    }
  }

  /** So does the loop that checks and starts, each with the outcome meant for it. */
  lemma {:induction false} CheckVisitsEachOnce(done: seq<Display>, rest: seq<Display>, children: set<Pid>,
          db: Database, os: seq<Outcome>, alive: bool)
    ensures var r := CheckEach(rest, children, db, os);
            CheckFrom(State(done + rest, children, alive), |done|, db, os) == State(done + r.displays, r.children, alive)
    decreases rest
  {
    hide CheckDisplayStatus, OutcomeAt;
    if rest == [] {
      assert done + [] == done;
    } else {
      var r := CheckDisplayStatus(rest[0], children, db, OutcomeAt(os));
      ReplaceMiddle(done, rest, r.display);
      CheckVisitsEachOnce(done + AsList(r.display), rest[1..], r.children, db, if os == [] then [] else os[1..],
                          alive);
      assert (done + rest)[|done|] == rest[0];
    }
  }

  // ---------------------------------------------------------------- after StopAll

  predicate AllZombies(ds: seq<Display>) {
    forall i :: 0 <= i < |ds| ==> ds[i].status == Zombie
  }

  lemma {:induction false} StoppedAreZombies(ds: seq<Display>)
    ensures AllZombies(StopEach(ds))
  {
    if ds != [] {
      StoppedAreZombies(ds[1..]);
    }
  }

  /** Stopping everything leaves nothing but zombies. */
  lemma StopAllLeavesZombies(st: State)
    ensures AllZombies(StopAll(st).displays)
  {
    StopVisitsEachOnce([], st.displays);
    assert [] + st.displays == st.displays;
    StoppedAreZombies(st.displays);
  }

  /** Every line names a display that is on the list. */
  predicate NamesOnlyListed(ds: seq<Display>, lines: seq<seq<string>>) {
    forall k :: 0 <= k < |lines| && |lines[k]| >= 2 ==> FirstNamed(ds, lines[k][0]) < |ds|
  }

  /** A rescan that makes no display, and that the manager survives. */
  predicate IsHarmless(st: State, lines: seq<seq<string>>) {
    NamesOnlyListed(st.displays, lines) && Reread(st, lines).alive
  }

  /** Steps that make no display: no XDMCP display is managed any more, since the sockets are closed by then. */
  predicate ShuttingDown(st: State, step: Step) {
    match step
    case Reaped(_, _, _, rescan) => rescan.Some? ==> IsHarmless(st, rescan.value)
    case Rescanned(lines, _, _) => IsHarmless(st, lines)
    case Checked(_, _) => true
    case Added(_, _) => true
    case Stopped => true
    case TakenOver(_, _, _, _, _) => false
  }

  predicate AllShuttingDown(st: State, steps: seq<Step>)
    decreases steps
  {
    steps == [] || (ShuttingDown(st, steps[0]) && AllShuttingDown(Next(st, steps[0]), steps[1..]))
  }

  /** The server processes that are waited for, display by display. */
  function Servers(ds: seq<Display>): (r: seq<Option<Pid>>)
    ensures |r| == |ds|
  {
    seq(|ds|, i requires 0 <= i < |ds| => ds[i].serverPid)
  }

  function Without(servers: seq<Option<Pid>>, reaped: set<Pid>): seq<Option<Pid>> {
    if servers == [] then []
    else if servers[0].Some? && servers[0].value in reaped then Without(servers[1..], reaped)
    else [servers[0]] + Without(servers[1..], reaped)
  }

  function ReapedBy(step: Step): set<Pid> {
    if step.Reaped? then {step.pid} else {}
  }

  function ReapedIn(steps: seq<Step>): set<Pid> {
    if steps == [] then {} else ReapedBy(steps[0]) + ReapedIn(steps[1..])
  }

  lemma {:induction false} WithoutAll(servers: seq<Option<Pid>>, a: set<Pid>, b: set<Pid>)
    ensures Without(Without(servers, a), b) == Without(servers, a + b)
  {
    if servers != [] {
      WithoutAll(servers[1..], a, b);
      var rest := Without(servers[1..], a);
      if !(servers[0].Some? && servers[0].value in a) {
        assert ([servers[0]] + rest)[1..] == rest;
      }
    }
  }

  lemma {:induction false} WithoutNone(servers: seq<Option<Pid>>, a: set<Pid>)
    requires forall i :: 0 <= i < |servers| && servers[i].Some? ==> servers[i].value !in a
    ensures Without(servers, a) == servers
  {
    if servers != [] {
      WithoutNone(servers[1..], a);
    }
  }

  lemma {:induction false} WithoutOne(servers: seq<Option<Pid>>, k: nat)
    requires k < |servers| && servers[k].Some?
    requires forall i :: 0 <= i < |servers| && i != k ==> servers[i] != servers[k]
    ensures Without(servers, {servers[k].value}) == servers[..k] + servers[k + 1..]
  {
    var a := {servers[k].value};
    if k == 0 {
      WithoutNone(servers[1..], a);
    } else {
      WithoutOne(servers[1..], k - 1);
      assert servers[..k] + servers[k + 1..] == [servers[0]] + (servers[1..][..k - 1] + servers[1..][k..]);
    }
  }

  lemma ZombieIsLeftAlone(d: Display, children: set<Pid>, db: Database, o: Outcome)
    requires d.status == Zombie && d.serverPid.Some?
    ensures var r := CheckDisplayStatus(d, children, db, o);
            r.children == children && r.display.Some? && r.display.value.status == Zombie && r.display.value.serverPid == d.serverPid
    ensures StopDisplay(d).Some? && StopDisplay(d).value.status == Zombie
    ensures StopDisplay(d).value.serverPid == d.serverPid
  {
  }

  lemma ServersOfCons(d: Display, ds: seq<Display>)
    ensures Servers([d] + ds) == [d.serverPid] + Servers(ds)
  {
    assert forall i :: 0 < i <= |ds| ==> ([d] + ds)[i] == ds[i - 1];
  }

  lemma ZombiesOfCons(d: Display, ds: seq<Display>)
    ensures AllZombies([d] + ds) <==> d.status == Zombie && AllZombies(ds)
  {
    var all := [d] + ds;
    assert all[0] == d && forall i :: 0 < i < |all| ==> all[i] == ds[i - 1];
    assert forall i :: 0 <= i < |ds| ==> ds[i] == all[i + 1];
  }

  lemma {:induction false} ZombiesAreLeftAlone(ds: seq<Display>, children: set<Pid>, db: Database, os: seq<Outcome>)
    requires AllZombies(ds) && forall i :: 0 <= i < |ds| ==> ds[i].serverPid.Some?
    ensures var r := CheckEach(ds, children, db, os);
            AllZombies(r.displays) && Servers(r.displays) == Servers(ds) && r.children == children
    ensures AllZombies(StopEach(ds)) && Servers(StopEach(ds)) == Servers(ds)
    decreases ds
  {
    hide CheckDisplayStatus, StopDisplay;
    if ds != [] {
      var rest, more := ds[1..], if os == [] then [] else os[1..];
      assert [ds[0]] + rest == ds;
      ServersOfCons(ds[0], rest);
      ZombiesOfCons(ds[0], rest);
      ZombieIsLeftAlone(ds[0], children, db, OutcomeAt(os));
      ZombiesAreLeftAlone(rest, children, db, more);
      var checked, stopped := CheckDisplayStatus(ds[0], children, db, OutcomeAt(os)).display.value, StopDisplay(ds[0]).value;
      ServersOfCons(checked, CheckEach(rest, children, db, more).displays);
      ZombiesOfCons(checked, CheckEach(rest, children, db, more).displays);
      ServersOfCons(stopped, StopEach(rest));
      ZombiesOfCons(stopped, StopEach(rest));
      hide AllZombies, Servers;
    }
  }

  lemma ShutdownChecked(st: State, db: Database, os: seq<Outcome>)
    requires AllZombies(st.displays) && forall i :: 0 <= i < |st.displays| ==> st.displays[i].serverPid.Some?
    ensures var after := StartDisplays(st, db, os);
            && AllZombies(after.displays) && after.children == st.children && Servers(after.displays) == Servers(st.displays)
            && after.alive == st.alive
    ensures AllZombies(StopAll(st).displays) && Servers(StopAll(st).displays) == Servers(st.displays)
  {
    hide CheckDisplayStatus, StopDisplay, AllZombies, CheckEach, StopEach, CheckFrom, StopFrom, Servers;
    var ds := st.displays;
    assert [] + ds == ds;
    CheckVisitsEachOnce([], ds, st.children, db, os, st.alive);
    StopVisitsEachOnce([], ds);
    ZombiesAreLeftAlone(ds, st.children, db, os);
    assert [] + CheckEach(ds, st.children, db, os).displays == CheckEach(ds, st.children, db, os).displays;
    assert [] + StopEach(ds) == StopEach(ds);
  }

  lemma AllHaveServers(st: State)
    requires Inv(st) && AllZombies(st.displays)
    ensures forall i :: 0 <= i < |st.displays| ==> st.displays[i].serverPid.Some?
  {
    assert forall i :: 0 <= i < |st.displays| ==> Sound(st.displays[i], st.children);
  }

  lemma NoneIsDynamic(ds: seq<Display>)
    requires AllZombies(ds)
    ensures FirstDynamic(ds) == |ds|
  {
  }

  /** Names, processes and status of the displays are the same. */
  predicate SameDisplays(ds: seq<Display>, es: seq<Display>) {
    |es| == |ds| && forall i :: 0 <= i < |ds| ==> SameButFile(ds[i], es[i])
  }

  lemma SameNames(ds: seq<Display>, es: seq<Display>, lines: seq<seq<string>>)
    requires SameDisplays(ds, es)
    ensures NamesOnlyListed(ds, lines) <==> NamesOnlyListed(es, lines)
    ensures AllZombies(ds) <==> AllZombies(es)
    ensures Servers(ds) == Servers(es)
  {
    forall name ensures FirstNamed(ds, name) == FirstNamed(es, name) {
      FirstIs(es, name, FirstNamed(ds, name));
    }
  }

  lemma {:induction false} HarmlessScan(ds: seq<Display>, lines: seq<seq<string>>)
    requires NamesOnlyListed(ds, lines)
    ensures SameDisplays(ds, ScanServers(ds, lines))
    decreases lines
  {
    if lines != [] {
      var mid := ParseDisplay(ds, lines[0]);
      assert SameDisplays(ds, mid);
      assert NamesOnlyListed(ds, lines[1..]);
      SameNames(ds, mid, lines[1..]);
      HarmlessScan(mid, lines[1..]);
    }
  }

  lemma HarmlessReread(st: State, lines: seq<seq<string>>)
    requires NamesOnlyListed(st.displays, lines)
    ensures SameDisplays(st.displays, Reread(st, lines).displays)
  {
    var marked := MarkAll(st.displays);
    assert SameDisplays(st.displays, marked);
    SameNames(st.displays, marked, lines);
    HarmlessScan(marked, lines);
  }

  /** One step among zombies: nothing is forked, and exactly the display whose server was reaped goes. */
  lemma ShutdownStep(st: State, step: Step)
    requires Inv(st) && AllZombies(st.displays) && ShuttingDown(st, step) && st.alive
    ensures var after := Next(st, step);
            && AllZombies(after.displays) && after.children <= st.children && after.alive
            && Servers(after.displays) == Without(Servers(st.displays), ReapedBy(step))
  {
    AllHaveServers(st);
    WithoutNone(Servers(st.displays), {});
    hide Inv, AllZombies, Without, Servers, StartDisplays, StopAll, Dispatch, Reread, NamesOnlyListed, SameDisplays;
    match step
    case Reaped(pid, exit, now, rescan) =>
      if rescan.Some? {
        var mid := Reread(st, rescan.value);
        HarmlessReread(st, rescan.value);
        SameNames(st.displays, mid.displays, []);
        RereadKeeps(st, rescan.value);
        RereadForksNothing(st, rescan.value);
        ShutdownDispatch(mid, pid, exit, now);
      } else {
        ShutdownDispatch(st, pid, exit, now);
      }
    case Checked(db, os) => ShutdownChecked(st, db, os);
    case Rescanned(lines, db, os) =>
      var mid := Reread(st, lines);
      HarmlessReread(st, lines);
      SameNames(st.displays, mid.displays, []);
      RereadKeeps(st, lines);
      RereadForksNothing(st, lines);
      AllHaveServers(mid);
      ShutdownChecked(mid, db, os);
    case Added(db, o) => NoneIsDynamic(st.displays);
    case Stopped =>
      ShutdownChecked(st, map[], []);
      StopForksNothing(st);
    case TakenOver(_, _, _, _, _) =>
  }

  lemma StopForksNothing(st: State)
    ensures StopAll(st).children == st.children && StopAll(st).alive == st.alive
  {
  }

  lemma ZombieReap(d: Display, exit: Exit, now: int)
    requires d.status == Zombie && d.serverPid.Some?
    ensures var r := SessionExit(d, exit, now); r.Some? && r.value.status == Zombie && r.value.serverPid == d.serverPid
    ensures ServerExit(d) == None
  {
  }

  lemma SessionGone(ds: seq<Display>, i: nat, pid: Pid, exit: Exit, now: int)
    requires AllZombies(ds) && i < |ds| && ds[i].serverPid.Some?
    requires forall j :: 0 <= j < |ds| ==> ds[j].serverPid != Some(pid)
    ensures var after := Replace(ds, i, SessionExit(ds[i], exit, now));
            AllZombies(after) && Servers(after) == Without(Servers(ds), {pid})
  {
    ZombieReap(ds[i], exit, now);
    hide SessionExit;
    WithoutNone(Servers(ds), {pid});
  }

  lemma ServerGone(ds: seq<Display>, k: nat, pid: Pid)
    requires AllZombies(ds) && k < |ds| && ds[k].serverPid == Some(pid)
    requires forall j :: 0 <= j < |ds| && j != k ==> ds[j].serverPid != Some(pid)
    ensures var after := Replace(ds, k, ServerExit(ds[k]));
            AllZombies(after) && Servers(after) == Without(Servers(ds), {pid})
  {
    WithoutOne(Servers(ds), k);
    assert Servers(Replace(ds, k, None)) == Servers(ds)[..k] + Servers(ds)[k + 1..];
  }

  lemma ShutdownDispatch(st: State, pid: Pid, exit: Exit, now: int)
    requires Inv(st) && AllZombies(st.displays)
    ensures var after := Dispatch(st, pid, exit, now);
            && AllZombies(after.displays) && Servers(after.displays) == Without(Servers(st.displays), {pid})
            && after.children <= st.children && after.alive == st.alive
  {
    hide SessionExit, ServerExit, Replace, Without, AllZombies;
    var ds := st.displays;
    var i, k := FirstWithPid(ds, pid), FirstWithServerPid(ds, pid);
    assert forall j :: 0 <= j < |ds| ==> Sound(ds[j], st.children);
    if i < |ds| {
      forall j | 0 <= j < |ds| ensures ds[j].serverPid != Some(pid) {
        if ds[j].serverPid == Some(pid) {
          OneRole(st, pid, i, j);
        }
      }
      assert ds[i].serverPid.Some? by { ServersOfZombies(st, i); }
      SessionGone(ds, i, pid, exit, now);
    } else if k < |ds| {
      forall j | 0 <= j < |ds| && ds[j].serverPid == Some(pid) ensures j == k {
        OneRole(st, pid, j, k);
      }
      ServerGone(ds, k, pid);
    } else {
      WithoutNone(Servers(ds), {pid});
    }
  }

  lemma ServersOfZombies(st: State, i: nat)
    requires Inv(st) && AllZombies(st.displays) && i < |st.displays|
    ensures st.displays[i].serverPid.Some?
  {
    assert Sound(st.displays[i], st.children);
  }

  /** Once everything was stopped, the displays left are exactly those whose server was not reaped yet. */
  lemma {:induction false} ShutdownRun(st: State, steps: seq<Step>)
    requires Inv(st) && AllZombies(st.displays) && AllShuttingDown(st, steps) && st.alive
    ensures var after := Run(st, steps);
            && AllZombies(after.displays) && after.children <= st.children && after.alive
            && Servers(after.displays) == Without(Servers(st.displays), ReapedIn(steps))
    decreases steps
  {
    if steps == [] {
      WithoutNone(Servers(st.displays), {});
    } else {
      var mid := Next(st, steps[0]);
      ShutdownStep(st, steps[0]);
      StepKeeps(st, steps[0]);
      ShutdownRun(mid, steps[1..]);
      WithoutAll(Servers(st.displays), ReapedBy(steps[0]), ReapedIn(steps[1..]));
    }
  }

  lemma {:induction false} EmptyWithout(servers: seq<Option<Pid>>, reaped: set<Pid>)
    requires forall i :: 0 <= i < |servers| ==> servers[i].Some?
    ensures Without(servers, reaped) == [] <==> forall i :: 0 <= i < |servers| ==> servers[i].value in reaped
    ensures |Without(servers, reaped)| <= |servers|
  {
    if servers != [] {
      EmptyWithout(servers[1..], reaped);
      assert forall i :: 0 < i < |servers| ==> servers[i] == servers[1..][i - 1];
    }
  }

  /**
   After StopAll from any reachable state, with no rescan that names an unlisted display: no process
   is started, the list does not grow, and it is empty exactly when every server that ran has been
   reaped.
   */
  lemma ShutdownEnds(st: State, steps: seq<Step>)
    requires Inv(st) && st.alive && AllShuttingDown(StopAll(st), steps)
    ensures var stopped := StopAll(st); var after := Run(stopped, steps);
            && AllZombies(after.displays) && after.children <= st.children
            && |after.displays| <= |stopped.displays|
            && (after.displays == [] <==>
                  forall i :: 0 <= i < |stopped.displays| ==> stopped.displays[i].serverPid in Somes(ReapedIn(steps)))
  {
    var stopped := StopAll(st);
    StepKeeps(st, Stopped);
    StopAllLeavesZombies(st);
    ShutdownRun(stopped, steps);
    assert forall i :: 0 <= i < |stopped.displays| ==> Sound(stopped.displays[i], stopped.children);
    EmptyWithout(Servers(stopped.displays), ReapedIn(steps));
    assert |Servers(Run(stopped, steps).displays)| == |Run(stopped, steps).displays|;
    assert forall i :: 0 <= i < |stopped.displays| ==>
        Servers(stopped.displays)[i].Some? && Servers(stopped.displays)[i] == stopped.displays[i].serverPid;
  }

  function Somes(pids: set<Pid>): set<Option<Pid>> {
    set p | p in pids :: Some(p)
  }

  // ---------------------------------------------------------------- rescans that revive

  /** A display that the servers file has just made, and that nothing has started yet. */
  predicate IsNewcomer(d: Display) {
    && d.status == NotRunning && d.pid == None && d.serverPid == None
    && d.displayType.origin == FromFile && d.state != MissingEntry
  }

  predicate HasNewcomer(ds: seq<Display>) {
    exists k :: 0 <= k < |ds| && IsNewcomer(ds[k])
  }

  lemma ParseNewcomer(ds: seq<Display>, words: seq<string>)
    requires !ReadsNull(ds, words)
    ensures HasNewcomer(ds) || (|words| >= 2 && FirstNamed(ds, words[0]) == |ds|) ==> HasNewcomer(ParseDisplay(ds, words))
  {
    var after := ParseDisplay(ds, words);
    if |words| >= 2 && FirstNamed(ds, words[0]) == |ds| {
      assert IsNewcomer(after[0]);
    } else if k :| 0 <= k < |ds| && IsNewcomer(ds[k]) {
      assert IsNewcomer(after[k]);
    }
  }

  lemma {:induction false} ScanNewcomer(ds: seq<Display>, lines: seq<seq<string>>)
    requires Survives(ds, lines) && (HasNewcomer(ds) || !NamesOnlyListed(ds, lines))
    ensures HasNewcomer(ScanServers(ds, lines))
    decreases lines
  {
    if lines != [] {
      var mid := ParseDisplay(ds, lines[0]);
      ParseNewcomer(ds, lines[0]);
      if !HasNewcomer(mid) {
        assert SameDisplays(ds, mid);
        SameNames(ds, mid, lines[1..]);
      }
      hide HasNewcomer;
      ScanNewcomer(mid, lines[1..]);
    }
  }

  /** Some display is not a zombie: one that was passed, or a newcomer still to be visited. */
  predicate HasLife(ds: seq<Display>, i: nat)
    requires i <= |ds|
  {
    exists k :: 0 <= k < |ds| && if k < i then ds[k].status != Zombie else IsNewcomer(ds[k])
  }

  lemma NewcomerStarts(d: Display, children: set<Pid>, db: Database, o: Outcome)
    requires IsNewcomer(d) && Succeeds(o, children)
    ensures var r := CheckDisplayStatus(d, children, db, o).display; r.Some? && r.value.status != Zombie
  {
  }

  lemma FirstSucceeds(os: seq<Outcome>, n: nat, children: set<Pid>)
    requires n > 0 && Supplies(os, n, children)
    ensures n <= |os| && Succeeds(os[0], children)
  {
  }

  lemma LifeMoves(ds: seq<Display>, i: nat, r: Option<Display>)
    requires i < |ds| && HasLife(ds, i) && (IsNewcomer(ds[i]) ==> r.Some? && r.value.status != Zombie)
    ensures HasLife(Replace(ds, i, r), if r == None then i else i + 1)
  {
    hide IsNewcomer;
    var mid, next := Replace(ds, i, r), if r == None then i else i + 1;
    var k :| 0 <= k < |ds| && if k < i then ds[k].status != Zombie else IsNewcomer(ds[k]);
    var t := if r == None && k > i then k - 1 else k;
    assert k != i ==> mid[t] == ds[k];
    assert if t < next then mid[t].status != Zombie else IsNewcomer(mid[t]);
  }

  lemma {:induction false} CheckKeepsLife(st: State, i: nat, db: Database, os: seq<Outcome>)
    requires i <= |st.displays| && Supplies(os, |st.displays| - i, st.children) && HasLife(st.displays, i)
    ensures var after := CheckFrom(st, i, db, os).displays; HasLife(after, |after|)
    decreases |st.displays| - i
  {
    hide CheckDisplayStatus, Brought, Succeeds, IsNewcomer, Supplies, HasLife;
    if i < |st.displays| {
      var ds := st.displays;
      FirstSucceeds(os, |ds| - i, st.children);
      var r := CheckDisplayStatus(ds[i], st.children, db, os[0]);
      CheckBringsUp(ds[i], st.children, db, os[0]);
      if IsNewcomer(ds[i]) {
        NewcomerStarts(ds[i], st.children, db, os[0]);
      }
      SuppliesRest(os, |ds| - i, st.children, r.children);
      LifeMoves(ds, i, r.display);
      CheckKeepsLife(Update(st, i, r), if r.display == None then i else i + 1, db, os[1..]);
    }
  }

  /** Process ids from `b` on, two for each of `n` displays. */
  function SupplyFrom(b: nat, n: nat): (os: seq<Outcome>)
    ensures |os| == n
  {
    seq(n, i requires 0 <= i < n => Outcome(Some(b + 2 * i), Some(b + 2 * i + 1)))
  }

  lemma SupplyExists(n: nat, children: set<Pid>) returns (os: seq<Outcome>)
    ensures Supplies(os, n, children)
  {
    var b := BoundOf(children);
    os := SupplyFrom(b, n);
    forall i | 0 <= i < n ensures Brought(os[i]) == {b + 2 * i, b + 2 * i + 1} && Succeeds(os[i], children) {
    }
  }

  lemma LifeIsNoZombie(ds: seq<Display>)
    ensures HasLife(ds, |ds|) <==> !AllZombies(ds)
  {
  }

  /**
   After everything was stopped, a rescan the manager survives leaves nothing but zombies, however
   forks turn out, exactly when every line names a display that is still listed.
   */
  lemma RescanRevivesExactly(st: State, lines: seq<seq<string>>)
    requires Inv(st) && AllZombies(st.displays) && Reread(st, lines).alive
    ensures (forall db, os :: AllZombies(Rescan(st, lines, db, os).displays)) <==> NamesOnlyListed(st.displays, lines)
  {
    var mid := Reread(st, lines);
    if NamesOnlyListed(st.displays, lines) {
      HarmlessReread(st, lines);
      SameNames(st.displays, mid.displays, []);
      RereadKeeps(st, lines);
      AllHaveServers(mid);
      hide Reread, StartDisplays, Inv, AllZombies, NamesOnlyListed;
      forall db, os ensures AllZombies(Rescan(st, lines, db, os).displays) {
        ShutdownChecked(mid, db, os);
      }
    } else {
      RereadMakesNewcomer(st, lines);
      var os := SupplyExists(|mid.displays|, mid.children);
      var db: Database := map[];
      assert HasLife(mid.displays, 0) by {
        var k :| 0 <= k < |mid.displays| && IsNewcomer(mid.displays[k]);
      }
      CheckKeepsLife(mid, 0, db, os);
      hide Reread, CheckFrom, Inv, NamesOnlyListed, Supplies, HasLife, HasNewcomer;
      LifeIsNoZombie(Rescan(st, lines, db, os).displays);
      assert !AllZombies(Rescan(st, lines, db, os).displays);
    }
  }

  lemma RereadMakesNewcomer(st: State, lines: seq<seq<string>>)
    requires Reread(st, lines).alive && !NamesOnlyListed(st.displays, lines)
    ensures HasNewcomer(Reread(st, lines).displays)
  {
    var marked := MarkAll(st.displays);
    assert SameDisplays(st.displays, marked);
    SameNames(st.displays, marked, lines);
    ScanNewcomer(marked, lines);
  }

  /** The same for the rescan of a modified servers file while a child is reaped. */
  lemma ReapRevivesExactly(st: State, pid: Pid, exit: Exit, now: int, lines: seq<seq<string>>)
    requires Inv(st) && AllZombies(st.displays) && Reread(st, lines).alive
    ensures AllZombies(Reap(st, pid, exit, now, Some(lines)).displays) <==> NamesOnlyListed(st.displays, lines)
  {
    var mid := Reread(st, lines);
    if NamesOnlyListed(st.displays, lines) {
      HarmlessReread(st, lines);
      SameNames(st.displays, mid.displays, []);
      RereadKeeps(st, lines);
      ShutdownDispatch(mid, pid, exit, now);
    } else {
      RereadMakesNewcomer(st, lines);
      hide Reread, Inv, NamesOnlyListed;
      DispatchSparesNewcomer(mid, pid, exit, now);
    }
  }

  lemma DispatchSparesNewcomer(st: State, pid: Pid, exit: Exit, now: int)
    requires HasNewcomer(st.displays)
    ensures !AllZombies(Dispatch(st, pid, exit, now).displays)
  {
    hide SessionExit, ServerExit, FirstWithPid, FirstWithServerPid;
    var ds, after := st.displays, Dispatch(st, pid, exit, now).displays;
    var k :| 0 <= k < |ds| && IsNewcomer(ds[k]);
    var i := if FirstWithPid(ds, pid) < |ds| then FirstWithPid(ds, pid) else FirstWithServerPid(ds, pid);
    assert i != k;
    assert after[if |after| < |ds| && k > i then k - 1 else k] == ds[k];
  }

  /** The failure as it is met: a zombie is still listed, and the servers file got a new line. */
  const HAUNTED := State(
    [NewDisplay("z", None).(argv := Some([]), status := Zombie, serverPid := Some(1))], {1, 2}, true)

  const NEW_LINE := [["z", "local"], ["x", "foreign"]]

  lemma NewLineRevives()
    ensures Inv(HAUNTED) && AllZombies(HAUNTED.displays) && Reread(HAUNTED, NEW_LINE).alive
    ensures !AllZombies(Reap(HAUNTED, 2, Unknown, 1, Some(NEW_LINE)).displays)
    ensures exists db, os :: !AllZombies(Rescan(HAUNTED, NEW_LINE, db, os).displays)
  {
    var ds := HAUNTED.displays;
    assert forall k :: 0 <= k < |NEW_LINE| ==> !HasClass(NEW_LINE[k]);
    assert forall k :: 0 <= k < |NEW_LINE| ==> !IsFatal(ds, NEW_LINE, k);
    RereadSurvivesExactly(HAUNTED, NEW_LINE);
    assert NEW_LINE[1][0] == "x" && FirstNamed(ds, "x") == |ds|;
    assert !NamesOnlyListed(ds, NEW_LINE);
    hide Survives, ScanServers, MarkAll;
    ReapRevivesExactly(HAUNTED, 2, Unknown, 1, NEW_LINE);
    RescanRevivesExactly(HAUNTED, NEW_LINE);
  }
}
