/** What every step of the manager keeps, for any mix of steps. */
module Lifecycle {
  import opened Options
  import opened Network
  import opened Displays

  // ---------------------------------------------------------------- the invariant

  predicate WellFormed(d: Display) {
    match d.status
    case Zombie => d.serverPid.Some?
    case Phoenix => d.serverPid.Some? && d.pid == None
    case NotRunning => d.pid == None
    case Running => d.pid.Some?
  }

  function PidsOf(p: Option<Pid>): set<Pid> {
    if p.Some? then {p.value} else {}
  }

  /** The processes a display records: its session and its server. */
  function Pids(d: Display): set<Pid> {
    PidsOf(d.pid) + PidsOf(d.serverPid)
  }

  /** A display from XDMCP is a foreign one without a server, and no other has a null argument list. */
  predicate IsOfItsOrigin(d: Display) {
    && (d.displayType.origin == FromXdmcp <==> d.argv == None)
    && (d.displayType.origin == FromXdmcp ==> d.displayType.location == Foreign && d.serverPid == None)
  }

  predicate Sound(d: Display, children: set<Pid>) {
    && WellFormed(d) && IsOfItsOrigin(d)
    && Pids(d) <= children
    && (d.pid.Some? ==> d.pid != d.serverPid)
  }

  predicate Apart(d: Display, e: Display) {
    Pids(d) !! Pids(e)
  }

  ghost predicate Inv(st: State) {
    && (forall i :: 0 <= i < |st.displays| ==> Sound(st.displays[i], st.children))
    && (forall i, j :: 0 <= i < j < |st.displays| ==> Apart(st.displays[i], st.displays[j]))
    && (forall i, j :: 0 <= i < j < |st.displays| ==>
          st.displays[i].name == st.displays[j].name ==> st.displays[j].status == Zombie)
  }

  // ---------------------------------------------------------------- changing one display

  /**
   What every operation on one display respects: it records no process but its own and new
   ones, no other process disappears, and a zombie stays one until its server does.
   */
  predicate Fits(d: Display, children: set<Pid>, r: Option<Display>, left: set<Pid>) {
    && children - left <= Pids(d)
    && (r.Some? ==>
          && Sound(r.value, left) && r.value.name == d.name
          && Pids(r.value) <= Pids(d) + (left - children)
          && (d.status == Zombie ==> r.value.status == Zombie && r.value.serverPid == d.serverPid))
    && (r == None && d.status == Zombie && d.serverPid.Some? ==> d.serverPid.value !in left)
  }

  lemma StopFits(d: Display, children: set<Pid>)
    requires Sound(d, children)
    ensures Fits(d, children, StopDisplay(d), children)
  {
  }

  lemma StartFits(d: Display, children: set<Pid>, db: Database, o: Outcome)
    requires Sound(d, children) && d.status == NotRunning
    ensures var r := StartDisplay(d, children, db, o); Fits(d, children, r.display, r.children)
  {
  }

  lemma CheckFits(d: Display, children: set<Pid>, db: Database, o: Outcome)
    requires Sound(d, children)
    ensures var r := CheckDisplayStatus(d, children, db, o); Fits(d, children, r.display, r.children)
  {
    if d.status == NotRunning {
      StartFits(d.(state := OldEntry), children, db, o);
    }
    StopFits(d, children);
  }

  lemma SessionExitFits(d: Display, children: set<Pid>, exit: Exit, now: int)
    requires Sound(d, children) && d.pid.Some?
    ensures Fits(d, children, SessionExit(d, exit, now), children - {d.pid.value})
  {
  }

  lemma ServerExitFits(d: Display, children: set<Pid>)
    requires Sound(d, children) && d.serverPid.Some?
    ensures Fits(d, children, ServerExit(d), children - {d.serverPid.value})
  {
  }

  /** A zombie with this server is on the list. */
  predicate Haunts(ds: seq<Display>, name: string, server: Option<Pid>) {
    exists i :: 0 <= i < |ds| && ds[i].status == Zombie && ds[i].name == name && ds[i].serverPid == server
  }

  /** Every zombie is still there, unless its server was reaped. */
  ghost predicate KeepsZombies(st: State, after: State) {
    forall i :: 0 <= i < |st.displays| && IsZombieOf(st.displays[i], after.children) ==>
      Haunts(after.displays, st.displays[i].name, st.displays[i].serverPid)
  }

  predicate IsZombieOf(d: Display, children: set<Pid>) {
    d.status == Zombie && d.serverPid.Some? && d.serverPid.value in children
  }

  lemma {:induction false} ReplaceKeeps(st: State, i: nat, r: Result)
    requires Inv(st) && i < |st.displays|
    requires Fits(st.displays[i], st.children, r.display, r.children)
    ensures Inv(Update(st, i, r)) && KeepsZombies(st, Update(st, i, r))
  {
    var after := Update(st, i, r);
    ReplaceKeepsSound(st, i, r);
    ReplaceKeepsZombies(st, i, r);
  }

  /** Where a position of the new list comes from. */
  function Source(i: nat, r: Option<Display>, k: nat): nat {
    if r == None && k >= i then k + 1 else k
  }

  lemma FirstIs(ds: seq<Display>, name: string, i: nat)
    requires i <= |ds| && (forall j :: 0 <= j < i ==> ds[j].name != name) && (i < |ds| ==> ds[i].name == name)
    ensures FirstNamed(ds, name) == i
  {
    var f := FirstNamed(ds, name);
    assert i < |ds| ==> f <= i;
    assert f < |ds| ==> i <= f;
  }

  /** Where the first display of a name is, after another one was replaced or taken out, or it was replaced itself. */
  lemma FirstAfter(ds: seq<Display>, i: nat, r: Option<Display>, name: string)
    requires i < |ds| && (r.Some? ==> r.value.name == ds[i].name) && (r == None ==> i != FirstNamed(ds, name))
    ensures var after, f := Replace(ds, i, r), FirstNamed(ds, name);
            var g := if r == None && i < f then f - 1 else f;
            && FirstNamed(after, name) == g && (g < |after| <==> f < |ds|)
            && (f < |ds| && f != i ==> after[g] == ds[f])
  {
    hide FirstNamed;
    var after, f := Replace(ds, i, r), FirstNamed(ds, name);
    assert forall k :: 0 <= k < |after| && Source(i, r, k) != i ==> after[k] == ds[Source(i, r, k)];
    FirstIs(after, name, if r == None && i < f then f - 1 else f);
  }

  lemma ReplaceKeepsSound(st: State, i: nat, r: Result)
    requires Inv(st) && i < |st.displays|
    requires Fits(st.displays[i], st.children, r.display, r.children)
    ensures Inv(Update(st, i, r))
  {
    var ds, after := st.displays, Update(st, i, r).displays;
    forall k | 0 <= k < |after| ensures Sound(after[k], r.children) {
      var s := Source(i, r.display, k);
      if s != i {
        assert after[k] == ds[s] && Sound(ds[s], st.children);
        assert Apart(ds[if s < i then s else i], ds[if s < i then i else s]);
      }
    }
    forall k, l | 0 <= k < l < |after|
      ensures Apart(after[k], after[l]) && (after[k].name == after[l].name ==> after[l].status == Zombie)
    {
      var s, t := Source(i, r.display, k), Source(i, r.display, l);
      assert Apart(ds[s], ds[t]) && Sound(ds[s], st.children) && Sound(ds[t], st.children);
      assert s != i ==> after[k] == ds[s];
      assert t != i ==> after[l] == ds[t];
    }
  }

  lemma ReplaceKeepsZombies(st: State, i: nat, r: Result)
    requires Inv(st) && i < |st.displays|
    requires Fits(st.displays[i], st.children, r.display, r.children)
    ensures KeepsZombies(st, Update(st, i, r))
  {
    var ds, after := st.displays, Update(st, i, r).displays;
    forall k | 0 <= k < |ds| && IsZombieOf(ds[k], r.children)
      ensures Haunts(after, ds[k].name, ds[k].serverPid)
    {
      if k != i || r.display.Some? {
        var t := if r.display == None && k > i then k - 1 else k;
        assert after[t].status == Zombie && after[t].name == ds[k].name && after[t].serverPid == ds[k].serverPid;
      }
    }
  }

  lemma ZombiesChain(a: State, b: State, c: State)
    requires KeepsZombies(a, b) && KeepsZombies(b, c) && a.children <= b.children
    requires forall i :: 0 <= i < |a.displays| ==> Sound(a.displays[i], a.children)
    ensures KeepsZombies(a, c)
  {
    forall i | 0 <= i < |a.displays| && IsZombieOf(a.displays[i], c.children)
      ensures Haunts(c.displays, a.displays[i].name, a.displays[i].serverPid)
    {
      assert Sound(a.displays[i], a.children);
      assert IsZombieOf(a.displays[i], b.children);
      var k :| 0 <= k < |b.displays| && b.displays[k].status == Zombie && b.displays[k].name == a.displays[i].name
               && b.displays[k].serverPid == a.displays[i].serverPid;
      assert IsZombieOf(b.displays[k], c.children);
    }
  }

  // ---------------------------------------------------------------- changing the list

  /** Displays that differ in no more than what the servers file says of them. */
  predicate SameButFile(d: Display, e: Display) {
    e == d.(state := e.state, displayType := e.displayType, cls := e.cls, argv := e.argv)
  }

  lemma FileKeeps(st: State, ds: seq<Display>)
    requires Inv(st) && |ds| == |st.displays|
    requires forall i :: 0 <= i < |ds| ==> SameButFile(st.displays[i], ds[i]) && IsOfItsOrigin(ds[i])
    ensures Inv(st.(displays := ds)) && KeepsZombies(st, st.(displays := ds))
  {
    forall i | 0 <= i < |ds| ensures Pids(ds[i]) == Pids(st.displays[i]) && Sound(ds[i], st.children) {
      assert Sound(st.displays[i], st.children);
    }
    forall i, j | 0 <= i < j < |ds| ensures Apart(ds[i], ds[j]) {
      assert Apart(st.displays[i], st.displays[j]);
    }
  }

  lemma PrependKeeps(st: State, d: Display)
    requires Inv(st) && d.status == NotRunning && d.pid == None && d.serverPid == None && IsOfItsOrigin(d)
    requires forall i :: 0 <= i < |st.displays| && st.displays[i].name == d.name ==> st.displays[i].status == Zombie
    ensures Inv(st.(displays := [d] + st.displays)) && KeepsZombies(st, st.(displays := [d] + st.displays))
  {
    var ds := [d] + st.displays;
    assert forall i :: 0 < i < |ds| ==> ds[i] == st.displays[i - 1];
    forall i, j | 0 <= i < j < |ds| ensures Apart(ds[i], ds[j]) {
      if i > 0 {
        assert Apart(st.displays[i - 1], st.displays[j - 1]);
      }
    }
    forall i | 0 <= i < |st.displays| && IsZombieOf(st.displays[i], st.children)
      ensures Haunts(ds, st.displays[i].name, st.displays[i].serverPid)
    {
      assert ds[i + 1] == st.displays[i];
    }
  }

  lemma ParseKeeps(st: State, words: seq<string>)
    requires Inv(st)
    ensures var after := st.(displays := ParseDisplay(st.displays, words)); Inv(after) && KeepsZombies(st, after)
  {
    var ds := ParseDisplay(st.displays, words);
    if |words| < 2 || FirstNamed(st.displays, words[0]) < |st.displays| {
      FileKeeps(st, ds);
    } else {
      PrependKeeps(st, ds[0]);
    }
  }

  lemma {:induction false} ScanKeeps(st: State, lines: seq<seq<string>>)
    requires Inv(st)
    ensures var after := st.(displays := ScanServers(st.displays, lines)); Inv(after) && KeepsZombies(st, after)
    decreases lines
  {
    if lines == [] {
      FileKeeps(st, st.displays);
    } else {
      var mid := st.(displays := ParseDisplay(st.displays, lines[0]));
      ParseKeeps(st, lines[0]);
      ScanKeeps(mid, lines[1..]);
      ZombiesChain(st, mid, st.(displays := ScanServers(st.displays, lines)));
    }
  }

  lemma RereadKeeps(st: State, lines: seq<seq<string>>)
    requires Inv(st)
    ensures Inv(Reread(st, lines)) && KeepsZombies(st, Reread(st, lines))
  {
    var mid := st.(displays := MarkAll(st.displays));
    FileKeeps(st, mid.displays);
    ScanKeeps(mid, lines);
    ZombiesChain(st, mid, mid.(displays := ScanServers(mid.displays, lines)));
  }

  lemma {:induction false} StopFromKeeps(st: State, i: nat)
    requires Inv(st) && i <= |st.displays|
    ensures var after := st.(displays := StopFrom(st.displays, i)); Inv(after) && KeepsZombies(st, after)
    decreases |st.displays| - i
  {
    if i == |st.displays| {
      FileKeeps(st, st.displays);
    } else {
      var r := StopDisplay(st.displays[i]);
      StopFits(st.displays[i], st.children);
      var mid := Update(st, i, Result(r, st.children));
      ReplaceKeeps(st, i, Result(r, st.children));
      StopFromKeeps(mid, if r == None then i else i + 1);
      ZombiesChain(st, mid, st.(displays := StopFrom(st.displays, i)));
    }
  }

  lemma {:induction false} CheckFromKeeps(st: State, i: nat, db: Database, os: seq<Outcome>)
    requires Inv(st) && i <= |st.displays|
    ensures var after := CheckFrom(st, i, db, os); Inv(after) && KeepsZombies(st, after) && st.children <= after.children
    decreases |st.displays| - i
  {
    if i == |st.displays| {
      FileKeeps(st, st.displays);
    } else {
      var r := CheckDisplayStatus(st.displays[i], st.children, db, OutcomeAt(os));
      CheckFits(st.displays[i], st.children, db, OutcomeAt(os));
      var mid := Update(st, i, r);
      assert st.children <= mid.children;
      ReplaceKeeps(st, i, r);
      CheckFromKeeps(mid, if r.display == None then i else i + 1, db, if os == [] then [] else os[1..]);
      ZombiesChain(st, mid, CheckFrom(st, i, db, os));
    }
  }

  lemma StopNamedLeavesZombies(st: State, name: string)
    requires Inv(st)
    ensures var ds := StopNamed(st.displays, name);
            forall i :: 0 <= i < |ds| && ds[i].name == name ==> ds[i].status == Zombie
  {
  }

  lemma TakeOverKeeps(st: State, name: string, cls: Option<string>, link: Link, db: Database, o: Outcome)
    requires Inv(st)
    ensures var after := TakeOver(st, name, cls, link, db, o); Inv(after) && KeepsZombies(st, after)
  {
    var i := FirstNamed(st.displays, name);
    var mid := st.(displays := StopNamed(st.displays, name));
    if i < |st.displays| {
      StopFits(st.displays[i], st.children);
      ReplaceKeeps(st, i, Result(StopDisplay(st.displays[i]), st.children));
    } else {
      FileKeeps(st, st.displays);
    }
    StopNamedLeavesZombies(st, name);
    var ready := mid.(displays := [Managed(name, cls, link)] + mid.displays);
    PrependKeeps(mid, Managed(name, cls, link));
    var r := StartDisplay(ready.displays[0], ready.children, db, o);
    StartFits(ready.displays[0], ready.children, db, o);
    ReplaceKeeps(ready, 0, r);
    ZombiesChain(st, mid, ready);
    ZombiesChain(st, ready, TakeOver(st, name, cls, link, db, o));
  }

  lemma DispatchKeeps(st: State, pid: Pid, exit: Exit, now: int)
    requires Inv(st)
    ensures Inv(Dispatch(st, pid, exit, now)) && KeepsZombies(st, Dispatch(st, pid, exit, now))
  {
    var i, k := FirstWithPid(st.displays, pid), FirstWithServerPid(st.displays, pid);
    var left := st.children - {pid};
    if i < |st.displays| {
      SessionExitFits(st.displays[i], st.children, exit, now);
      ReplaceKeeps(st, i, Result(SessionExit(st.displays[i], exit, now), left));
    } else if k < |st.displays| {
      ServerExitFits(st.displays[k], st.children);
      ReplaceKeeps(st, k, Result(ServerExit(st.displays[k]), left));
    } else {
      UnknownChild(st, pid);
    }
  }

  lemma ReapKeeps(st: State, pid: Pid, exit: Exit, now: int, rescan: Option<seq<seq<string>>>)
    requires Inv(st)
    ensures var after := Reap(st, pid, exit, now, rescan); Inv(after) && KeepsZombies(st, after)
  {
    hide Inv, Dispatch, Reread, KeepsZombies;
    if rescan.Some? {
      var mid := Reread(st, rescan.value);
      RereadKeeps(st, rescan.value);
      if mid.alive {
        DispatchKeeps(mid, pid, exit, now);
        RereadForksNothing(st, rescan.value);
        InvIsSound(st);
        ZombiesChain(st, mid, Dispatch(mid, pid, exit, now));
      }
    } else {
      DispatchKeeps(st, pid, exit, now);
      if !st.alive {
        InvIsSound(st);
        NothingChanged(st);
      }
    }
  }

  lemma InvIsSound(st: State)
    requires Inv(st)
    ensures forall i :: 0 <= i < |st.displays| ==> Sound(st.displays[i], st.children)
  {
  }

  lemma RereadForksNothing(st: State, lines: seq<seq<string>>)
    ensures Reread(st, lines).children == st.children
  {
  }

  lemma NothingChanged(st: State)
    ensures KeepsZombies(st, st)
  {
    forall i | 0 <= i < |st.displays| && IsZombieOf(st.displays[i], st.children)
      ensures Haunts(st.displays, st.displays[i].name, st.displays[i].serverPid)
    {
    }
  }

  /** A child no display records can be reaped without any display noticing. */
  lemma UnknownChild(st: State, pid: Pid)
    requires Inv(st) && forall i :: 0 <= i < |st.displays| ==> pid !in Pids(st.displays[i])
    ensures var after := st.(children := st.children - {pid}); Inv(after) && KeepsZombies(st, after)
  {
    var after := st.(children := st.children - {pid});
    assert forall i :: 0 <= i < |st.displays| ==> Sound(st.displays[i], after.children);
    assert forall i :: 0 <= i < |st.displays| && IsZombieOf(st.displays[i], after.children) ==>
        st.displays[i].status == Zombie;
  }

  // ---------------------------------------------------------------- every step, every run

  /** Every step keeps the invariant, and a zombie stays on the list until its server is reaped. */
  lemma StepKeeps(st: State, step: Step)
    requires Inv(st)
    ensures Inv(Next(st, step)) && KeepsZombies(st, Next(st, step))
  {
    hide Inv, KeepsZombies, Reap, CheckFrom, Reread, StopAll, TakeOver;
    InvIsSound(st);
    NothingChanged(st);
    match step
    case Reaped(pid, exit, now, rescan) => ReapKeeps(st, pid, exit, now, rescan);
    case Checked(db, os) => CheckFromKeeps(st, 0, db, os);
    case Rescanned(lines, db, os) => RescanKeeps(st, lines, db, os);
    case Added(db, o) => AddKeeps(st, db, o);
    case Stopped => StopAllKeeps(st);
    case TakenOver(name, cls, link, db, o) => TakeOverKeeps(st, name, cls, link, db, o);
  }

  lemma RescanKeeps(st: State, lines: seq<seq<string>>, db: Database, os: seq<Outcome>)
    requires Inv(st)
    ensures Inv(Rescan(st, lines, db, os)) && KeepsZombies(st, Rescan(st, lines, db, os))
  {
    hide Inv, KeepsZombies, CheckFrom, Reread;
    var mid := Reread(st, lines);
    RereadKeeps(st, lines);
    if mid.alive {
      RereadForksNothing(st, lines);
      InvIsSound(st);
      CheckFromKeeps(mid, 0, db, os);
      ZombiesChain(st, mid, CheckFrom(mid, 0, db, os));
    }
  }

  lemma AddKeeps(st: State, db: Database, o: Outcome)
    requires Inv(st)
    ensures Inv(AddDynamic(st, db, o)) && KeepsZombies(st, AddDynamic(st, db, o))
  {
    var i := FirstDynamic(st.displays);
    if i < |st.displays| {
      StartFits(st.displays[i], st.children, db, o);
      ReplaceKeeps(st, i, StartDisplay(st.displays[i], st.children, db, o));
    } else {
      NothingChanged(st);
    }
  }

  lemma StopAllKeeps(st: State)
    requires Inv(st)
    ensures Inv(StopAll(st)) && KeepsZombies(st, StopAll(st))
  {
    StopFromKeeps(st, 0);
  }

  lemma {:induction false} RunKeeps(st: State, steps: seq<Step>)
    requires Inv(st)
    ensures Inv(Run(st, steps))
    decreases steps
  {
    if steps != [] {
      StepKeeps(st, steps[0]);
      RunKeeps(Next(st, steps[0]), steps[1..]);
    }
  }

  /** A process is recorded by at most one display, in one role. */
  lemma OneRole(st: State, pid: Pid, i: nat, j: nat)
    requires Inv(st) && i < |st.displays| && j < |st.displays|
    requires pid in Pids(st.displays[i]) && pid in Pids(st.displays[j])
    ensures i == j && (st.displays[i].pid == Some(pid) <==> st.displays[i].serverPid != Some(pid))
  {
    assert i < j ==> Apart(st.displays[i], st.displays[j]);
    assert j < i ==> Apart(st.displays[j], st.displays[i]);
    assert Sound(st.displays[i], st.children);
  }

  /** The only display of its name that is not a zombie is the one a search by name finds. */
  lemma LiveDisplayIsFirst(st: State, i: nat)
    requires Inv(st) && i < |st.displays| && st.displays[i].status != Zombie
    ensures FirstNamed(st.displays, st.displays[i].name) == i
    ensures forall j :: 0 <= j < |st.displays| && j != i && st.displays[j].name == st.displays[i].name ==>
              st.displays[j].status == Zombie
  {
    var k := FirstNamed(st.displays, st.displays[i].name);
    assert k <= i;
  }

  const NOTHING_YET := State([], {}, true)

  /** In every run, a process id that is reaped belongs to at most one display, in one role. */
  lemma ReapedBelongsOnce(steps: seq<Step>, pid: Pid)
    ensures var ds := Run(NOTHING_YET, steps).displays;
            && (FirstWithPid(ds, pid) < |ds| ==> FirstWithServerPid(ds, pid) == |ds|)
            && (forall i, j :: 0 <= i < |ds| && 0 <= j < |ds| && ds[i].pid == ds[j].pid == Some(pid) ==> i == j)
            && (forall i, j :: 0 <= i < |ds| && 0 <= j < |ds| && ds[i].serverPid == ds[j].serverPid == Some(pid) ==> i == j)
  {
    RunKeeps(NOTHING_YET, steps);
    var st := Run(NOTHING_YET, steps);
    var ds := st.displays;
    hide Run, Inv;
    forall i, j | 0 <= i < |ds| && 0 <= j < |ds| && pid in Pids(ds[i]) && pid in Pids(ds[j])
      ensures i == j && (ds[i].pid == Some(pid) <==> ds[i].serverPid != Some(pid))
    {
      OneRole(st, pid, i, j);
    }
    assert forall i :: 0 <= i < |ds| ==> (pid in Pids(ds[i]) <==> ds[i].pid == Some(pid) || ds[i].serverPid == Some(pid));
  }

  /** In every run, of the displays of a name at most one is not a zombie, and it is the one found by name. */
  lemma OneLiveDisplayPerName(steps: seq<Step>, name: string)
    ensures var ds := Run(NOTHING_YET, steps).displays;
            forall i :: 0 <= i < |ds| && ds[i].name == name && ds[i].status != Zombie ==> i == FirstNamed(ds, name)
  {
    RunKeeps(NOTHING_YET, steps);
    var st := Run(NOTHING_YET, steps);
    hide Run;
    forall i | 0 <= i < |st.displays| && st.displays[i].name == name && st.displays[i].status != Zombie
      ensures i == FirstNamed(st.displays, name)
    {
      LiveDisplayIsFirst(st, i);
    }
  }

  // ---------------------------------------------------------------- a display nothing restarts

  predicate Mentions(lines: seq<seq<string>>, name: string) {
    exists i :: 0 <= i < |lines| && |lines[i]| >= 2 && lines[i][0] == name
  }

  /** The steps that take an idle display of this name off the list. */
  predicate Concerns(step: Step, name: string) {
    step.Stopped? || (step.TakenOver? && step.name == name)
  }

  /** An XDMCP display whose session could not be forked. */
  predicate Idle(d: Display) {
    d.status == NotRunning && d.displayType.origin == FromXdmcp && d.pid == None && d.serverPid == None
  }

  /** The display is on the list as it was, but for its mark. */
  predicate Lingers(ds: seq<Display>, d: Display) {
    exists i :: 0 <= i < |ds| && ds[i] == d.(state := ds[i].state)
  }

  lemma ReplaceLingers(ds: seq<Display>, i: nat, r: Option<Display>, d: Display)
    requires Lingers(ds, d) && i < |ds|
    requires ds[i] == d.(state := ds[i].state) ==> r.Some? && r.value == d.(state := r.value.state)
    ensures Lingers(Replace(ds, i, r), d)
  {
    var k :| 0 <= k < |ds| && ds[k] == d.(state := ds[k].state);
    var after := Replace(ds, i, r);
    var t := if r == None && k > i then k - 1 else k;
    assert after[t] == if k == i then r.value else ds[k];
  }

  lemma PrependLingers(ds: seq<Display>, x: Display, d: Display)
    requires Lingers(ds, d)
    ensures Lingers([x] + ds, d)
  {
    var k :| 0 <= k < |ds| && ds[k] == d.(state := ds[k].state);
    assert ([x] + ds)[k + 1] == ds[k];
  }

  lemma {:induction false} ScanLingers(ds: seq<Display>, lines: seq<seq<string>>, d: Display)
    requires Lingers(ds, d) && !Mentions(lines, d.name)
    ensures Lingers(ScanServers(ds, lines), d)
    decreases lines
  {
    if lines != [] {
      var mid := ParseDisplay(ds, lines[0]);
      if |lines[0]| >= 2 {
        assert lines[0][0] != d.name;
        var i := FirstNamed(ds, lines[0][0]);
        if i < |ds| {
          ReplaceLingers(ds, i, Some(mid[i]), d);
        } else {
          PrependLingers(ds, mid[0], d);
        }
      }
      forall i | 0 <= i < |lines[1..]| && |lines[1..][i]| >= 2 ensures lines[1..][i][0] != d.name {
        assert lines[1..][i] == lines[i + 1];
      }
      ScanLingers(mid, lines[1..], d);
    }
  }

  lemma RereadLingers(st: State, lines: seq<seq<string>>, d: Display)
    requires Lingers(st.displays, d) && !Mentions(lines, d.name)
    ensures Lingers(Reread(st, lines).displays, d)
  {
    var ds := st.displays;
    var k :| 0 <= k < |ds| && ds[k] == d.(state := ds[k].state);
    assert MarkAll(ds)[k] == d.(state := MissingEntry);
    ScanLingers(MarkAll(ds), lines, d);
  }

  lemma {:induction false} ScanNames(ds: seq<Display>, lines: seq<seq<string>>, name: string)
    requires Mentions(lines, name)
    requires var f := FirstNamed(ds, name); f < |ds| && ds[f].argv == None
    ensures !Survives(ds, lines)
    decreases lines
  {
    if Survives(ds, lines) {
      var mid, f := ParseDisplay(ds, lines[0]), FirstNamed(ds, name);
      if |lines[0]| >= 2 {
        FirstIs(mid, name, if FirstNamed(ds, lines[0][0]) < |ds| then f else f + 1);
      }
      var k :| 0 <= k < |lines| && |lines[k]| >= 2 && lines[k][0] == name;
      assert k > 0 && lines[1..][k - 1] == lines[k];
      ScanNames(mid, lines[1..], name);
    }
  }

  /** A line that names a display from XDMCP ends the manager: there are no arguments to free. */
  lemma NamingXdmcpEnds(st: State, lines: seq<seq<string>>, d: Display)
    requires Inv(st) && Lingers(st.displays, d) && d.displayType.origin == FromXdmcp && Mentions(lines, d.name)
    ensures !Reread(st, lines).alive
  {
    var ds, marked := st.displays, MarkAll(st.displays);
    var k :| 0 <= k < |ds| && ds[k] == d.(state := ds[k].state);
    assert Sound(ds[k], st.children);
    LiveDisplayIsFirst(st, k);
    FirstIs(marked, d.name, k);
    ScanNames(marked, lines, d.name);
  }

  lemma {:induction false} CheckFromLingers(st: State, i: nat, db: Database, os: seq<Outcome>, d: Display)
    requires Lingers(st.displays, d) && d.displayType.origin == FromXdmcp && i <= |st.displays|
    ensures Lingers(CheckFrom(st, i, db, os).displays, d)
    decreases |st.displays| - i
  {
    if i < |st.displays| {
      var r := CheckDisplayStatus(st.displays[i], st.children, db, OutcomeAt(os));
      ReplaceLingers(st.displays, i, r.display, d);
      CheckFromLingers(Update(st, i, r), if r.display == None then i else i + 1, db, if os == [] then [] else os[1..], d);
    }
  }

  lemma DispatchLingers(st: State, pid: Pid, exit: Exit, now: int, d: Display)
    requires Lingers(st.displays, d) && Idle(d)
    ensures Lingers(Dispatch(st, pid, exit, now).displays, d)
  {
    hide Lingers, SessionExit, ServerExit;
    var i, k := FirstWithPid(st.displays, pid), FirstWithServerPid(st.displays, pid);
    if i < |st.displays| {
      ReplaceLingers(st.displays, i, SessionExit(st.displays[i], exit, now), d);
    } else if k < |st.displays| {
      ReplaceLingers(st.displays, k, ServerExit(st.displays[k]), d);
    }
  }

  lemma TakeOverLingers(st: State, name: string, cls: Option<string>, link: Link, db: Database, o: Outcome, d: Display)
    requires Lingers(st.displays, d) && name != d.name
    ensures Lingers(TakeOver(st, name, cls, link, db, o).displays, d)
  {
    hide Lingers, StopDisplay, StartDisplay;
    var i := FirstNamed(st.displays, name);
    if i < |st.displays| {
      ReplaceLingers(st.displays, i, StopDisplay(st.displays[i]), d);
    }
    var ready := [Managed(name, cls, link)] + StopNamed(st.displays, name);
    PrependLingers(StopNamed(st.displays, name), Managed(name, cls, link), d);
    ReplaceLingers(ready, 0, StartDisplay(ready[0], st.children, db, o).display, d);
  }

  /** What a MANAGE makes: a transient foreign display in front, new in every other respect, with its session if that was forked. */
  predicate IsMadeBy(d: Display, name: string, cls: Option<string>, link: Link, session: Option<Pid>) {
    && d.name == name && d.cls == cls && d.argv == None && d.link == link && d.serverPid == None
    && d.displayType.location == Foreign && d.displayType.lifetime == Transient && d.displayType.origin == FromXdmcp
    && d.startTries == d.reservTries == 0 && d.lastReserv == 0
    && d.pid == session && d.status == if session.Some? then Running else NotRunning
  }

  /**
   A MANAGE takes the name over: the display that had it is a zombie or gone, and all displays of other
   names are as they were.
   */
  lemma TakeOverExactly(st: State, name: string, cls: Option<string>, link: Link, db: Database, o: Outcome)
    requires Inv(st)
    ensures var after := TakeOver(st, name, cls, link, db, o).displays;
            && after != []
            && IsMadeBy(after[0], name, cls, link, if o.session.Some? && o.session.value !in st.children then o.session else None)
            && (forall k :: 0 < k < |after| && after[k].name == name ==> after[k].status == Zombie)
            && (forall d: Display :: d.name != name ==> (d in after[1..] <==> d in st.displays))
  {
    var ds, left := st.displays, StopNamed(st.displays, name);
    var after := TakeOver(st, name, cls, link, db, o).displays;
    StopNamedLeavesZombies(st, name);
    assert after[1..] == left;
    StopNamedSpares(ds, name);
    hide StopNamed;
    assert forall k :: 0 < k < |after| ==> after[k] == after[1..][k - 1];
  }

  lemma StopNamedSpares(ds: seq<Display>, name: string)
    ensures forall d: Display :: d.name != name ==> (d in StopNamed(ds, name) <==> d in ds)
  {
    var i, left := FirstNamed(ds, name), StopNamed(ds, name);
    if i < |ds| {
      var r := StopDisplay(ds[i]);
      forall d: Display | d.name != name ensures d in left <==> d in ds {
        if d in ds {
          var k :| 0 <= k < |ds| && ds[k] == d;
          assert left[if r == None && k > i then k - 1 else k] == d;
        }
        if d in left {
          var k :| 0 <= k < |left| && left[k] == d;
          assert ds[Source(i, r, k)] == d;
        }
      }
    }
  }

  /** A MANAGE leaves its display idle in front of the list exactly when its session could not be forked. */
  lemma TakeOverIdlesExactly(st: State, name: string, cls: Option<string>, link: Link, db: Database, o: Outcome)
    ensures var after := TakeOver(st, name, cls, link, db, o).displays;
            && after != [] && after[0].name == name && after[0].link == link
            && (Idle(after[0]) <==> Fork(st.children, o.session) == None)
            && (Idle(after[0]) ==> Lingers(after, after[0]))
  {
    var after := TakeOver(st, name, cls, link, db, o).displays;
    assert after[0] == after[0].(state := after[0].state);
  }

  /** A rescan that the manager survives leaves a display from XDMCP as it is, but for its mark. */
  lemma RescanLingers(st: State, lines: seq<seq<string>>, db: Database, os: seq<Outcome>, d: Display)
    requires Inv(st) && Lingers(st.displays, d) && d.displayType.origin == FromXdmcp
    ensures Mentions(lines, d.name) ==> !Rescan(st, lines, db, os).alive
    ensures Rescan(st, lines, db, os).alive ==> Lingers(Rescan(st, lines, db, os).displays, d)
  {
    hide Lingers, Reread, Mentions, CheckFrom, Inv;
    if Mentions(lines, d.name) {
      NamingXdmcpEnds(st, lines, d);
    } else {
      RereadLingers(st, lines, d);
      CheckFromLingers(Reread(st, lines), 0, db, os, d);
    }
  }

  /** No other step that the manager survives starts, stops or removes it. */
  lemma IdleLingers(st: State, step: Step, d: Display)
    requires Inv(st) && Lingers(st.displays, d) && Idle(d) && !Concerns(step, d.name)
    ensures Next(st, step).alive ==> Lingers(Next(st, step).displays, d)
  {
    hide Lingers, Reread, Dispatch, CheckFrom, TakeOver, Mentions, Inv, Rescan;
    var ds := st.displays;
    match step
    case Reaped(pid, exit, now, rescan) =>
      if rescan == None {
        DispatchLingers(st, pid, exit, now, d);
      } else if Mentions(rescan.value, d.name) {
        NamingXdmcpEnds(st, rescan.value, d);
      } else {
        RereadLingers(st, rescan.value, d);
        DispatchLingers(Reread(st, rescan.value), pid, exit, now, d);
      }
    case Checked(db, os) => CheckFromLingers(st, 0, db, os, d);
    case Rescanned(lines, db, os) => RescanLingers(st, lines, db, os, d);
    case Added(db, o) =>
      var i := FirstDynamic(ds);
      if i < |ds| {
        ReplaceLingers(ds, i, StartDisplay(ds[i], st.children, db, o).display, d);
      }
    case Stopped =>
    case TakenOver(name, cls, link, db, o) => TakeOverLingers(st, name, cls, link, db, o, d);
  }

  lemma DeadRun(st: State, steps: seq<Step>)
    requires !st.alive
    ensures Run(st, steps) == st
  {
  }

  /** Over any run the manager lives through, until a MANAGE takes its name or everything is stopped. */
  lemma {:induction false} IdleForever(st: State, steps: seq<Step>, d: Display)
    requires Inv(st) && Lingers(st.displays, d) && Idle(d) && forall i :: 0 <= i < |steps| ==> !Concerns(steps[i], d.name)
    ensures Run(st, steps).alive ==> Lingers(Run(st, steps).displays, d)
    decreases steps
  {
    if steps != [] {
      var mid := Next(st, steps[0]);
      StepKeeps(st, steps[0]);
      IdleLingers(st, steps[0], d);
      if mid.alive {
        IdleForever(mid, steps[1..], d);
      } else {
        DeadRun(mid, steps[1..]);
      }
    }
  }

  /** One line is enough: MANAGE made a display ":0", and the servers file names it. */
  lemma NamedByBoth(cls: Option<string>, link: Link, db: Database, o: Outcome)
    ensures var st := Next(NOTHING_YET, TakenOver(":0", cls, link, db, o));
            && st.alive && |st.displays| == 1 && !Reread(st, [[":0", "local"]]).alive
  {
    var st := Next(NOTHING_YET, TakenOver(":0", cls, link, db, o));
    var d, lines := st.displays[0], [[":0", "local"]];
    StepKeeps(NOTHING_YET, TakenOver(":0", cls, link, db, o));
    assert d == d.(state := d.state) && Lingers(st.displays, d);
    assert lines[0][0] == ":0" && Mentions(lines, d.name);
    NamingXdmcpEnds(st, lines, d);
  }
}
