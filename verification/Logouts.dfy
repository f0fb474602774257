/**
 What becomes of a display when its session or its server ends, said from the value waitpid returns:
 who goes on, as what, and when the next session comes.
 */
module Logouts {
  import opened Options
  import opened Displays
  import opened Lifecycle
  import opened Rescans

  predicate IsLive(d: Display, name: string) {
    d.name == name && d.status != Zombie
  }

  predicate HasLive(ds: seq<Display>, name: string) {
    exists k :: 0 <= k < |ds| && IsLive(ds[k], name)
  }

  const KILLED := 15 * 256

  /** The server failed again within two minutes, and as often in a row as is put up with. */
  predicate CrashesTooOften(d: Display, now: int) {
    d.lastReserv != 0 && now < d.lastReserv + 120 && d.reservTries + 1 >= d.resources.reservAttempts
  }

  /**
   Who goes on after a session that ended with this wait value: permanent displays after an ordinary
   logout, those of the servers file when the session asks for another one, for a new server or
   when it never came up, up to the limits; nobody after any other value.
   */
  predicate GoesOn(d: Display, wait: nat, now: int) {
    || (wait == 0 && d.displayType.lifetime == Permanent)
    || (d.displayType.origin == FromFile &&
          (|| wait == 1
           || (wait == 3 && !CrashesTooOften(d, now))
           || ((wait == 4 || wait == KILLED) && d.startTries + 1 < d.resources.startAttempts)))
  }

  /** The server is taken down with the session. */
  predicate LosesServer(d: Display, wait: nat) {
    d.serverPid.Some? && (wait >= 3 || d.resources.terminateServer)
  }

  /** What the display is like that goes on: without a session, and with the counters set back or up. */
  predicate IsLeft(d: Display, e: Display, wait: nat, now: int) {
    && e == d.(pid := None, status := e.status, startTries := e.startTries, reservTries := e.reservTries,
               lastReserv := e.lastReserv)
    && e.status == (if LosesServer(d, wait) then Phoenix else NotRunning)
    && e.startTries == (if wait == 4 || wait == KILLED then d.startTries + 1 else 0)
    && (wait != 3 ==> e.lastReserv == d.lastReserv && e.reservTries == if wait == 0 then 0 else d.reservTries)
    && (wait == 3 ==> e.lastReserv == now
                      && e.reservTries == if d.lastReserv != 0 && now < d.lastReserv + 120 then d.reservTries + 1 else 0)
  }

  lemma ExitLeaves(d: Display, wait: nat, now: int)
    requires d.pid.Some? && d.status == Running
    ensures var r := SessionExit(d, ExitOf(wait), now);
            && (r.Some? && r.value.status != Zombie <==> GoesOn(d, wait, now))
            && (GoesOn(d, wait, now) ==> IsLeft(d, r.value, wait, now))
            && (!GoesOn(d, wait, now) ==> if d.serverPid.Some? then r.Some? && r.value.serverPid == d.serverPid else r == None)
            && (r.Some? ==> r.value.name == d.name)
  {
  }

  /** Whose session it was, and what that does to the list. */
  lemma SessionReaped(st: State, i: nat, exit: Exit, now: int)
    requires Inv(st) && st.alive && i < |st.displays| && st.displays[i].pid.Some?
    ensures var d := st.displays[i];
            Next(st, Reaped(d.pid.value, exit, now, None))
            == Update(st, i, Result(SessionExit(d, exit, now), st.children - {d.pid.value}))
  {
    hide SessionExit, ServerExit, Replace;
    var ds, pid := st.displays, st.displays[i].pid.value;
    var f := FirstWithPid(ds, pid);
    assert f <= i;
    assert f < i ==> Apart(ds[f], ds[i]);
  }

  lemma ReplaceLives(ds: seq<Display>, i: nat, r: Option<Display>, name: string)
    requires i < |ds| && forall j :: 0 <= j < |ds| && j != i ==> !IsLive(ds[j], name)
    ensures HasLive(Replace(ds, i, r), name) <==> r.Some? && IsLive(r.value, name)
    ensures forall e :: e in Replace(ds, i, r) && IsLive(e, name) ==> r == Some(e)
  {
    hide IsLive;
    var after := Replace(ds, i, r);
    assert forall k :: 0 <= k < |after| && Source(i, r, k) != i ==> after[k] == ds[Source(i, r, k)];
    if r.Some? && IsLive(r.value, name) {
      assert after[i] == r.value;
    }
  }

  /**
   From any state a run can reach, a session that is not a zombie's ends with any wait value: a live
   display of its name is left exactly when it goes on, and that one keeps its server and
   everything else but its status and counters. Otherwise it is a zombie until its server is
   gone, or off the list at once if it has none.
   */
  lemma SessionEndsExactly(st: State, i: nat, wait: nat, now: int)
    requires Inv(st) && st.alive && i < |st.displays|
    requires st.displays[i].pid.Some? && st.displays[i].status != Zombie
    ensures var d := st.displays[i];
            var after := Next(st, Reaped(d.pid.value, ExitOf(wait), now, None)).displays;
            && (HasLive(after, d.name) <==> GoesOn(d, wait, now))
            && (forall e :: e in after && IsLive(e, d.name) ==> IsLeft(d, e, wait, now))
            && (!GoesOn(d, wait, now) ==>
                  if d.serverPid.Some? then Haunts(after, d.name, d.serverPid) else |after| == |st.displays| - 1)
  {
    var d := st.displays[i];
    var r := SessionExit(d, ExitOf(wait), now);
    LiveDisplayIsFirst(st, i);
    assert Sound(d, st.children);
    ExitLeaves(d, wait, now);
    SessionReaped(st, i, ExitOf(wait), now);
    ReplaceLives(st.displays, i, r, d.name);
    hide Next, SessionExit, GoesOn, IsLeft;
    var after := Replace(st.displays, i, r);
    if !GoesOn(d, wait, now) && r.Some? {
      assert after[i] == r.value;
    }
  }

  /**
   A server that ends takes its display off the list if that is a zombie. It makes a phoenix ready for
   a new one; any other display just has no server any more.
   */
  lemma ServerEndsExactly(st: State, i: nat, wait: nat, now: int)
    requires Inv(st) && st.alive && i < |st.displays| && st.displays[i].serverPid.Some?
    ensures var ds, d := st.displays, st.displays[i];
            Next(st, Reaped(d.serverPid.value, ExitOf(wait), now, None)).displays
            == if d.status == Zombie then ds[..i] + ds[i + 1..]
               else ds[i := d.(serverPid := None, status := if d.status == Phoenix then NotRunning else d.status)]
  {
    var ds, pid := st.displays, st.displays[i].serverPid.value;
    forall j | 0 <= j < |ds| ensures ds[j].pid != Some(pid) && (ds[j].serverPid == Some(pid) ==> j == i) {
      if pid in Pids(ds[j]) {
        OneRole(st, pid, i, j);
      }
    }
    var f := FirstWithServerPid(ds, pid);
    assert f <= i && FirstWithPid(ds, pid) == |ds|;
  }

  // ---------------------------------------------------------------- the next session

  /** Started: a new session, and for a local display the server it had, or else a new one. */
  predicate IsStartedFrom(d: Display, e: Display, children: set<Pid>, db: Database) {
    && e == d.(state := e.state, resources := LoadServerResources(db, d.name), status := Running, pid := e.pid,
               serverPid := e.serverPid)
    && e.pid.Some? && e.pid.value !in children
    && if d.displayType.location == Local && d.serverPid == None
       then e.serverPid.Some? && e.serverPid.value !in children && e.serverPid != e.pid
       else e.serverPid == d.serverPid
  }

  lemma CheckStartsOne(d: Display, children: set<Pid>, db: Database, o: Outcome)
    requires Startable(d) && Succeeds(o, children)
    ensures var r := CheckDisplayStatus(d, children, db, o).display;
            r.Some? && IsStartedFrom(d, r.value, children, db) && r.value.state == OldEntry
  {
  }

  lemma {:induction false} CheckKeepsFront(st: State, i: nat, db: Database, os: seq<Outcome>, k: nat)
    requires k < i <= |st.displays|
    ensures var after := CheckFrom(st, i, db, os).displays; k < |after| && after[k] == st.displays[k]
    decreases |st.displays| - i
  {
    hide CheckDisplayStatus;
    if i < |st.displays| {
      var r := CheckDisplayStatus(st.displays[i], st.children, db, OutcomeAt(os));
      CheckKeepsFront(Update(st, i, r), if r.display == None then i else i + 1, db, if os == [] then [] else os[1..], k);
    }
  }

  predicate IsStartedIn(ds: seq<Display>, d: Display, children: set<Pid>, db: Database) {
    exists k :: 0 <= k < |ds| && IsStartedFrom(d, ds[k], children, db) && ds[k].state == OldEntry
  }

  lemma FewerChildren(ds: seq<Display>, d: Display, children: set<Pid>, more: set<Pid>, db: Database)
    requires children <= more && IsStartedIn(ds, d, more, db)
    ensures IsStartedIn(ds, d, children, db)
  {
    var k :| 0 <= k < |ds| && IsStartedFrom(d, ds[k], more, db) && ds[k].state == OldEntry;
    assert IsStartedFrom(d, ds[k], children, db);
  }

  lemma {:induction false} CheckStarts(st: State, i: nat, db: Database, os: seq<Outcome>, j: nat)
    requires i <= j < |st.displays| && Startable(st.displays[j]) && Supplies(os, |st.displays| - i, st.children)
    ensures IsStartedIn(CheckFrom(st, i, db, os).displays, st.displays[j], st.children, db)
    decreases |st.displays| - i
  {
    hide CheckDisplayStatus, Brought, Succeeds, Startable, Supplies, IsStartedFrom;
    var ds := st.displays;
    AllSucceed(os, |ds| - i, st.children);
    var r := CheckDisplayStatus(ds[i], st.children, db, os[0]);
    var mid, next := Update(st, i, r), if r.display == None then i else i + 1;
    CheckBringsUp(ds[i], st.children, db, os[0]);
    if i == j {
      CheckStartsOne(ds[i], st.children, db, os[0]);
      CheckKeepsFront(mid, next, db, os[1..], i);
    } else {
      SuppliesRest(os, |ds| - i, st.children, r.children);
      var k := if r.display == None then j - 1 else j;
      assert mid.displays[k] == ds[j];
      CheckStarts(mid, next, db, os[1..], k);
      FewerChildren(CheckFrom(mid, next, db, os[1..]).displays, ds[j], st.children, mid.children, db);
    }
  }

  lemma AllSucceed(os: seq<Outcome>, n: nat, children: set<Pid>)
    requires n > 0 && Supplies(os, n, children)
    ensures n <= |os| && Succeeds(os[0], children)
  {
  }

  predicate RunsIn(ds: seq<Display>, name: string) {
    exists k :: 0 <= k < |ds| && IsRunning(ds[k], name)
  }

  /** Which display runs after the check: none of the name was running before, so the one that was started. */
  lemma CheckedRuns(st: State, db: Database, os: seq<Outcome>, name: string)
    requires Supplies(os, |st.displays|, st.children)
    requires forall e :: e in st.displays ==> !IsRunning(e, name)
    ensures RunsIn(CheckFrom(st, 0, db, os).displays, name)
       <==> exists k :: 0 <= k < |st.displays| && st.displays[k].name == name && Startable(st.displays[k])
  {
    CheckRunsExactly(st, 0, db, os, name);
    hide CheckFrom, Supplies, Startable;
    var ds, after := st.displays, CheckFrom(st, 0, db, os).displays;
    assert RunsOrWill(after, |after|, name) <==> RunsIn(after, name);
    forall k | 0 <= k < |ds| ensures WillRun(ds[k], name) <==> ds[k].name == name && Startable(ds[k]) {
      assert ds[k] in ds;
    }
  }

  /** A permanent display of the servers file that was not dropped from it. */
  predicate IsConfigured(d: Display) {
    d.displayType.origin == FromFile && d.displayType.lifetime == Permanent && d.state != MissingEntry
  }

  /**
   The check that follows in the same turn brings the next session, when forks succeed, exactly if the
   display goes on, keeps its server, and is a permanent one the servers file still has.
   */
  lemma NextSessionExactly(st: State, i: nat, wait: nat, now: int, db: Database, os: seq<Outcome>)
    requires Inv(st) && st.alive && i < |st.displays|
    requires st.displays[i].pid.Some? && st.displays[i].status != Zombie
    requires var mid := Next(st, Reaped(st.displays[i].pid.value, ExitOf(wait), now, None));
             Supplies(os, |mid.displays|, mid.children)
    ensures var d := st.displays[i];
            var mid := Next(st, Reaped(d.pid.value, ExitOf(wait), now, None));
            var after := Next(mid, Checked(db, os)).displays;
            && (RunsIn(after, d.name) <==> GoesOn(d, wait, now) && !LosesServer(d, wait) && IsConfigured(d))
            && (RunsIn(after, d.name) ==> exists e :: e in mid.displays && IsLeft(d, e, wait, now)
                                                      && IsStartedIn(after, e, mid.children, db))
  {
    var d := st.displays[i];
    var mid := Next(st, Reaped(d.pid.value, ExitOf(wait), now, None));
    SessionEndsExactly(st, i, wait, now);
    LivesOn(st, i, wait, now);
    hide GoesOn, IsLeft, Inv, Supplies, LosesServer;
    LeftIsStartable(d, mid.displays, wait, now);
    CheckedRuns(mid, db, os, d.name);
    if GoesOn(d, wait, now) && !LosesServer(d, wait) && IsConfigured(d) {
      var k :| 0 <= k < |mid.displays| && mid.displays[k].name == d.name && Startable(mid.displays[k]);
      CheckStarts(mid, 0, db, os, k);
    }
  }

  lemma LivesOn(st: State, i: nat, wait: nat, now: int)
    requires Inv(st) && st.alive && i < |st.displays| && st.displays[i].pid.Some?
    ensures Next(st, Reaped(st.displays[i].pid.value, ExitOf(wait), now, None)).alive
  {
    SessionReaped(st, i, ExitOf(wait), now);
  }

  lemma LeftIsStartable(d: Display, ds: seq<Display>, wait: nat, now: int)
    requires HasLive(ds, d.name) <==> GoesOn(d, wait, now)
    requires forall e :: e in ds && IsLive(e, d.name) ==> IsLeft(d, e, wait, now)
    ensures forall e :: e in ds ==> !IsRunning(e, d.name)
    ensures (exists k :: 0 <= k < |ds| && ds[k].name == d.name && Startable(ds[k]))
       <==> GoesOn(d, wait, now) && !LosesServer(d, wait) && IsConfigured(d)
    ensures forall k :: 0 <= k < |ds| && ds[k].name == d.name && Startable(ds[k]) ==> IsLeft(d, ds[k], wait, now)
  {
    hide GoesOn, LosesServer;
    forall k | 0 <= k < |ds| && ds[k].name == d.name && ds[k].status != Zombie
      ensures IsLeft(d, ds[k], wait, now) && (Startable(ds[k]) <==> !LosesServer(d, wait) && IsConfigured(d))
    {
      assert ds[k] in ds && IsLive(ds[k], d.name);
    }
    if HasLive(ds, d.name) && !LosesServer(d, wait) && IsConfigured(d) {
      var k :| 0 <= k < |ds| && IsLive(ds[k], d.name);
      assert Startable(ds[k]);
    }
  }

  /** A phoenix rises: once its server is gone, the check starts a new server and a session. */
  lemma PhoenixRises(st: State, i: nat, wait: nat, now: int, db: Database, os: seq<Outcome>)
    requires Inv(st) && st.alive && i < |st.displays| && st.displays[i].status == Phoenix
    requires var mid := Next(st, Reaped(st.displays[i].serverPid.value, ExitOf(wait), now, None));
             Supplies(os, |mid.displays|, mid.children)
    ensures var d := st.displays[i];
            var mid := Next(st, Reaped(d.serverPid.value, ExitOf(wait), now, None));
            var after := Next(mid, Checked(db, os)).displays;
            && (RunsIn(after, d.name) <==> IsConfigured(d))
            && (IsConfigured(d) ==> IsStartedIn(after, d.(serverPid := None, status := NotRunning), mid.children, db))
  {
    var d := st.displays[i];
    var mid := Next(st, Reaped(d.serverPid.value, ExitOf(wait), now, None));
    ServerEndsExactly(st, i, wait, now);
    LiveDisplayIsFirst(st, i);
    var ds, risen := mid.displays, d.(serverPid := None, status := NotRunning);
    assert ds[i] == risen && mid.alive;
    hide Inv, Next, Supplies;
    forall k | 0 <= k < |ds| && k != i ensures ds[k].name == d.name ==> ds[k].status == Zombie {
      assert ds[k] == st.displays[k];
    }
    CheckedRuns(mid, db, os, d.name);
    assert IsConfigured(d) <==> Startable(ds[i]);
    if IsConfigured(d) {
      CheckStarts(mid, 0, db, os, i);
    }
    NextIsCheck(mid, db, os);
  }

  lemma NextIsCheck(st: State, db: Database, os: seq<Outcome>)
    requires st.alive
    ensures Next(st, Checked(db, os)) == CheckFrom(st, 0, db, os)
  {
  }

  /** One request to add a display starts the first idle transient one of the servers file, and touches no other. */
  lemma AddStartsFirst(st: State, db: Database, o: Outcome)
    requires st.alive && Succeeds(o, st.children)
    ensures var ds, after := st.displays, Next(st, Added(db, o)).displays;
            && |after| == |ds|
            && forall k :: 0 <= k < |ds| ==>
                 if IsSpare(ds[k]) && forall j :: 0 <= j < k ==> !IsSpare(ds[j])
                 then IsStartedFrom(ds[k], after[k], st.children, db) && after[k].state == ds[k].state
                 else after[k] == ds[k]
  {
    var f := FirstDynamic(st.displays);
    assert forall d :: IsSpare(d) <==> IsDynamic(d);
    hide IsSpare, IsDynamic;
    if f < |st.displays| {
      StartsAs(st.displays[f], st.children, db, o);
    }
  }

  predicate IsSpare(d: Display) {
    d.displayType.origin == FromFile && d.displayType.lifetime == Transient && d.status == NotRunning
  }

  lemma StartsAs(d: Display, children: set<Pid>, db: Database, o: Outcome)
    requires Succeeds(o, children)
    ensures var r := StartDisplay(d, children, db, o).display;
            r.Some? && IsStartedFrom(d, r.value, children, db) && r.value.state == d.state
  {
  }
}
