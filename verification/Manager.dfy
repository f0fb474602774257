/** The manager's display list as the code keeps it, each operation proved against `Displays`. */
module Manager {
  import opened Options
  import opened Network
  import Displays
  import opened Lifecycle

  type Pid = Displays.Pid

  /** A `struct display`, updated in place and linked to the next one. */
  class Entry {
    const name: string
    var next: Entry?
    var cls: Option<string>
    var argv: Option<seq<string>>
    var displayType: Displays.DisplayType
    var status: Displays.Status
    var pid: Option<Pid>
    var serverPid: Option<Pid>
    var state: Displays.FileState
    var startTries: nat
    var reservTries: nat
    var lastReserv: int
    var resources: Displays.Resources
    var link: Displays.Link

    function Value(): Displays.Display
      reads `cls, `argv, `displayType, `status, `pid, `serverPid, `state
      reads `startTries, `reservTries, `lastReserv, `resources, `link
    {
      Displays.Display(name, cls, argv, displayType, status, pid, serverPid, state,
                       startTries, reservTries, lastReserv, resources, link)
    }

    constructor (name: string, cls: Option<string>, next: Entry?)
      ensures Value() == Displays.NewDisplay(name, cls) && this.next == next
    {
      this.name := name;
      this.cls, this.argv := cls, None;
      this.next := next;
      displayType := Displays.DisplayType(Displays.Local, Displays.Permanent, Displays.FromFile);
      status := Displays.NotRunning;
      pid, serverPid := None, None;
      state := Displays.NewEntry;
      startTries, reservTries, lastReserv := 0, 0, 0;
      resources := Displays.Resources(0, 0, false);
      link := Displays.NO_LINK;
    }
  }

  function Values(es: seq<Entry>): (r: seq<Displays.Display>)
    reads es
    ensures |r| == |es|
  {
    seq(|es|, i requires 0 <= i < |es| reads es => es[i].Value())
  }

  /** The node at a position of the list, or the end. */
  function NodeAt(es: seq<Entry>, i: nat): Entry? {
    if i < |es| then es[i] else null
  }

  /** The nodes from `head` on are exactly these, each pointing at the next. */
  predicate Linked(head: Entry?, es: seq<Entry>)
    reads es`next
  {
    && head == NodeAt(es, 0)
    && (forall i :: 0 <= i < |es| ==> es[i].next == NodeAt(es, i + 1))
    && (forall i, j :: 0 <= i < j < |es| ==> es[i] != es[j])
  }

  /** What waitpid returns, when, and what the servers file holds if it was modified meanwhile. */
  datatype Child = Child(pid: Pid, wait: nat, now: int, rescan: Option<seq<seq<string>>>)

  function AsStep(c: Child): Displays.Step {
    Displays.Reaped(c.pid, Displays.ExitOf(c.wait), c.now, c.rescan)
  }

  function AsSteps(cs: seq<Child>): seq<Displays.Step> {
    if cs == [] then [] else [AsStep(cs[0])] + AsSteps(cs[1..])
  }

  class Manager {
    /** The list: its first node, and for the proofs all of its nodes in order. */
    var displays: Entry?
    ghost var spine: seq<Entry>
    /** The unreaped children, which the system keeps. */
    var children: set<Pid>
    var alive: bool

    ghost predicate Valid()
      reads `displays, `spine, spine`next
    {
      Linked(displays, spine)
    }

    ghost function View(): Displays.State
      reads `spine, `children, `alive, spine
    {
      Displays.State(Values(spine), children, alive)
    }

    ghost function Repr(): set<Entry>
      reads `spine
    {
      set e | e in spine
    }

    constructor ()
      ensures Valid() && View() == Displays.State([], {}, true) && spine == []
    {
      displays := null;
      spine := [];
      children := {};
      alive := true;
    }

    // -------------------------------------------------------------- walking the list

    method FindDisplayByName(name: string) returns (d: Entry?, ghost i: nat)
      requires Valid()
      ensures i == Displays.FirstNamed(Values(spine), name) && d == NodeAt(spine, i)
    {
      d, i := displays, 0;
      while d != null && d.name != name
        invariant i <= |spine| && d == NodeAt(spine, i)
        invariant Displays.FirstNamed(Values(spine), name) == i + Displays.FirstNamed(Values(spine)[i..], name)
        decreases |spine| - i
      {
        d, i := d.next, i + 1;
      }
    }

    method FindDisplayByPid(pid: Pid) returns (d: Entry?, ghost i: nat)
      requires Valid()
      ensures i == Displays.FirstWithPid(Values(spine), pid) && d == NodeAt(spine, i)
    {
      d, i := displays, 0;
      while d != null && d.pid != Some(pid)
        invariant i <= |spine| && d == NodeAt(spine, i)
        invariant Displays.FirstWithPid(Values(spine), pid) == i + Displays.FirstWithPid(Values(spine)[i..], pid)
        decreases |spine| - i
      {
        d, i := d.next, i + 1;
      }
    }

    method FindDisplayByServerPid(pid: Pid) returns (d: Entry?, ghost i: nat)
      requires Valid()
      ensures i == Displays.FirstWithServerPid(Values(spine), pid) && d == NodeAt(spine, i)
    {
      d, i := displays, 0;
      while d != null && d.serverPid != Some(pid)
        invariant i <= |spine| && d == NodeAt(spine, i)
        invariant Displays.FirstWithServerPid(Values(spine), pid)
               == i + Displays.FirstWithServerPid(Values(spine)[i..], pid)
        decreases |spine| - i
      {
        d, i := d.next, i + 1;
      }
    }

    method Fork(wish: Option<Pid>) returns (pid: Option<Pid>)
      modifies `children
      ensures pid == Displays.Fork(old(children), wish)
      ensures children == if pid == None then old(children) else old(children) + {pid.value}
    {
      if wish.Some? && wish.value !in children {
        children := children + {wish.value};
        return wish;
      }
      return None;
    }

    /**
     Unlinks a display, with a walk that keeps the node before it. The removed node is freed: what it
     holds afterwards is not promised.
     */
    method RemoveDisplay(gone: Entry, ghost i: nat)
      requires Valid() && i < |spine| && spine[i] == gone
      modifies `displays, `spine, Repr()`next
      ensures Valid() && spine == old(spine)[..i] + old(spine)[i + 1..]
    {
      hide Valid;
      var p: Entry?, d := null, displays;
      ghost var k := 0;
      NodesDiffer(i);
      NodesAre(0);
      while d != null && d != gone
        modifies {}
        invariant k <= i && d == spine[k] && p == (if k == 0 then null else spine[k - 1])
        decreases |spine| - k
      {
        NodesAre(k);
        p, d, k := d, d.next, k + 1;
      }
      Unlink(p, gone, i);
    }

    lemma NodesAre(k: nat)
      requires Valid() && k < |spine|
      ensures displays == spine[0] && spine[k].next == NodeAt(spine, k + 1)
    {
    }

    /** `p` is the node before the one to unlink, if there is one. */
    method Unlink(p: Entry?, gone: Entry, ghost i: nat)
      requires Valid() && i < |spine| && spine[i] == gone && p == (if i == 0 then null else spine[i - 1])
      modifies `displays, `spine, Repr()`next
      ensures Valid() && spine == old(spine)[..i] + old(spine)[i + 1..]
    {
      hide NodeAt;
      if p != null {
        p.next := gone.next;
      } else {
        displays := gone.next;
      }
      Relinked(displays, spine, i);
      spine := spine[..i] + spine[i + 1..];
    }

    /** Once the node at `i` is passed over, the others are a list. */
    lemma Relinked(head: Entry?, es: seq<Entry>, i: nat)
      requires i < |es| && forall j, k :: 0 <= j < k < |es| ==> es[j] != es[k]
      requires head == NodeAt(es, if i == 0 then 1 else 0)
      requires forall j :: 0 <= j < |es| && j != i ==> es[j].next == NodeAt(es, if j + 1 == i then i + 1 else j + 1)
      ensures Linked(head, es[..i] + es[i + 1..])
    {
      hide NodeAt;
      var rest := es[..i] + es[i + 1..];
      RestAt(es, i, 0);
      forall j | 0 <= j < |rest| ensures rest[j].next == NodeAt(rest, j + 1) {
        RestAt(es, i, j);
        RestAt(es, i, j + 1);
      }
      forall j, k | 0 <= j < k < |rest| ensures rest[j] != rest[k] {
        RestAt(es, i, j);
        RestAt(es, i, k);
      }
    }

    lemma RestAt(es: seq<Entry>, i: nat, j: nat)
      requires i < |es|
      ensures var rest, k := es[..i] + es[i + 1..], if j < i then j else j + 1;
              NodeAt(rest, j) == NodeAt(es, k) && (j < |rest| ==> k < |es| && k != i && rest[j] == es[k])
    {
    }

    twostate lemma Updated(i: nat)
      requires spine == old(spine) && i < |spine| && forall j :: 0 <= j < |spine| && j != i ==> spine[j] != spine[i]
      requires forall j :: 0 <= j < |spine| && j != i ==> spine[j].Value() == old(spine[j].Value())
      ensures Values(spine) == Displays.Replace(old(Values(spine)), i, Some(spine[i].Value()))
    {
    }

    twostate lemma Removed(i: nat)
      requires i < |old(spine)| && spine == old(spine)[..i] + old(spine)[i + 1..]
      requires forall j :: 0 <= j < |old(spine)| && j != i ==> old(spine)[j].Value() == old(spine[j].Value())
      ensures Values(spine) == Displays.Replace(old(Values(spine)), i, None)
    {
      var was := old(Values(spine));
      forall j | 0 <= j < |spine| ensures spine[j].Value() == Displays.Replace(was, i, None)[j] {
        var k := if j < i then j else j + 1;
        assert spine[j] == old(spine)[k];
      }
    }

    lemma NodesDiffer(i: nat)
      requires Valid() && i < |spine|
      ensures forall j :: 0 <= j < |spine| && j != i ==> spine[j] != spine[i]
    {
    }

    /** The nodes are the same, or all but the one at `i`. */
    twostate predicate SameNodes(i: nat)
      requires i < |old(spine)|
      reads `spine
    {
      spine == old(spine) || spine == old(spine)[..i] + old(spine)[i + 1..]
    }

    // -------------------------------------------------------------- one display

    method StopDisplay(d: Entry, ghost i: nat)
      requires Valid() && i < |spine| && spine[i] == d
      modifies `displays, `spine, Repr()`next, d`status
      ensures Valid() && SameNodes(i)
      ensures if d.serverPid.Some? then spine == old(spine) && d.status == Displays.Zombie
              else spine == old(spine)[..i] + old(spine)[i + 1..] && d.status == old(d.status)
      ensures Values(spine) == Displays.Replace(old(Values(spine)), i, Displays.StopDisplay(old(d.Value())))
    {
      hide Valid, Displays.Replace;
      NodesDiffer(i);
      if d.serverPid.Some? {
        d.status := Displays.Zombie;
      }
      if d.serverPid == None {
        RemoveDisplay(d, i);
        Removed(i);
      } else {
        Updated(i);
      }
    }

    method RestartDisplay(d: Entry, forceReserver: bool)
      modifies d`status
      ensures d.Value() == Displays.RestartDisplay(old(d.Value()), forceReserver)
    {
      if d.serverPid.Some? && (forceReserver || d.resources.terminateServer) {
        d.status := Displays.Phoenix;
      } else {
        d.status := Displays.NotRunning;
      }
    }

    method StartDisplay(d: Entry, ghost i: nat, db: Displays.Database, o: Displays.Outcome)
      requires Valid() && i < |spine| && spine[i] == d
      modifies `displays, `spine, `children, Repr()`next
      modifies d`resources, d`serverPid, d`pid, d`status
      ensures Valid() && SameNodes(i)
      ensures View() == Displays.Update(old(View()), i, Displays.StartDisplay(old(d.Value()), old(children), db, o))
    {
      hide Displays.StartDisplay, Valid, Displays.Replace;
      NodesDiffer(i);
      var ok := StartProcesses(d, db, o);
      if ok {
        Updated(i);
      } else {
        RemoveDisplay(d, i);
        Removed(i);
      }
    }

    /** The server, if the display needs one, and the session; not so if the server cannot be started. */
    method StartProcesses(d: Entry, db: Displays.Database, o: Displays.Outcome) returns (ok: bool)
      modifies `children, d`resources, d`serverPid, d`pid, d`status
      ensures var r := Displays.StartDisplay(old(d.Value()), old(children), db, o);
              children == r.children && ok == r.display.Some? && (ok ==> d.Value() == r.display.value)
    {
      d.resources := Displays.LoadServerResources(db, d.name);
      if d.displayType.location == Displays.Local && d.serverPid == None {
        d.serverPid := Fork(o.server);
        if d.serverPid == None {
          return false;
        }
      }
      ForkSession(d, o.session);
      return true;
    }

    method ForkSession(d: Entry, wish: Option<Pid>)
      modifies `children, d`pid, d`status
      ensures Displays.Result(Some(d.Value()), children) == Displays.ForkSession(old(d.Value()), old(children), wish)
    {
      var pid := Fork(wish);
      if pid.Some? {
        d.pid := pid;
        d.status := Displays.Running;
      }
    }

    // -------------------------------------------------------------- reaped children

    /** A session that could not open its display, or was killed. */
    method FailedStart(d: Entry, ghost i: nat)
      requires Valid() && i < |spine| && spine[i] == d
      modifies `displays, `spine, Repr()`next, d`startTries, d`status
      ensures Valid() && SameNodes(i)
      ensures Values(spine) == Displays.Replace(old(Values(spine)), i, Displays.RetryStart(old(d.Value())))
    {
      hide Valid, Displays.Replace;
      NodesDiffer(i);
      if d.displayType.origin == Displays.FromXdmcp || d.status == Displays.Zombie {
        StopDisplay(d, i);
        return;
      }
      d.startTries := d.startTries + 1;
      if d.startTries >= d.resources.startAttempts {
        StopDisplay(d, i);
        if d.serverPid == None {
          Removed(i);
        } else {
          Updated(i);
        }
      } else {
        RestartDisplay(d, true);
        Updated(i);
      }
    }

    /** Counts a server that failed soon after the last failure. */
    method CountCrash(d: Entry, now: int) returns (stop: bool)
      modifies d`reservTries
      ensures d.Value() == old(d.Value()).(reservTries := if Displays.Crash(old(d.Value()), now) then old(d.reservTries) + 1 else 0)
      ensures stop == (Displays.Crash(old(d.Value()), now) && d.reservTries >= d.resources.reservAttempts)
    {
      var crash := d.lastReserv != 0 && now - d.lastReserv < Displays.XDM_BROKEN_INTERVAL;
      if !crash {
        d.reservTries := 0;
      }
      stop := false;
      if crash {
        d.reservTries := d.reservTries + 1;
        stop := d.reservTries >= d.resources.reservAttempts;
      }
    }

    /** Gives up, or starts over with a new server and remembers when. */
    method StopOrReserver(d: Entry, ghost i: nat, stop: bool, now: int)
      requires Valid() && i < |spine| && spine[i] == d
      modifies `displays, `spine, Repr()`next, d`lastReserv, d`status
      ensures Valid() && SameNodes(i)
      ensures Values(spine) == Displays.Replace(old(Values(spine)), i, Displays.Remember(
                if stop then Displays.StopDisplay(old(d.Value())) else Some(Displays.RestartDisplay(old(d.Value()), true)), now))
    {
      hide Valid, Displays.Replace;
      NodesDiffer(i);
      if stop {
        StopDisplay(d, i);
        d.lastReserv := now;
        if d.serverPid == None {
          Removed(i);
        } else {
          Updated(i);
        }
      } else {
        RestartDisplay(d, true);
        d.lastReserv := now;
        Updated(i);
      }
    }

    lemma OverwrittenReplace(ds: seq<Displays.Display>, i: nat, e: Displays.Display, r: Option<Displays.Display>)
      requires i < |ds|
      ensures Displays.Replace(Displays.Replace(ds, i, Some(e)), i, r) == Displays.Replace(ds, i, r)
    {
    }

    /** A session that asks for a new server. */
    method Reservered(d: Entry, ghost i: nat, now: int)
      requires Valid() && i < |spine| && spine[i] == d
      modifies `displays, `spine, Repr()`next, d`reservTries, d`lastReserv, d`status
      ensures Valid() && SameNodes(i)
      ensures Values(spine) == Displays.Replace(old(Values(spine)), i, Displays.RetryServer(old(d.Value()), now))
    {
      hide Valid, Displays.Crash, Displays.Replace;
      NodesDiffer(i);
      if d.displayType.origin == Displays.FromXdmcp || d.status == Displays.Zombie {
        StopDisplay(d, i);
        return;
      }
      ghost var was := Values(spine);
      var stop := CountCrash(d, now);
      Updated(i);
      ghost var e := d.Value();
      StopOrReserver(d, i, stop, now);
      hide Displays.StopDisplay, Displays.RestartDisplay;
      OverwrittenReplace(was, i, e, Displays.RetryServer(was[i], now));
    }

    method StopOrRestart(d: Entry, ghost i: nat, stop: bool)
      requires Valid() && i < |spine| && spine[i] == d
      modifies `displays, `spine, Repr()`next, d`status
      ensures Valid() && SameNodes(i)
      ensures Values(spine) == Displays.Replace(old(Values(spine)), i,
                if stop then Displays.StopDisplay(old(d.Value())) else Some(Displays.RestartDisplay(old(d.Value()), false)))
    {
      hide Valid;
      NodesDiffer(i);
      if stop {
        StopDisplay(d, i);
      } else {
        RestartDisplay(d, false);
        Updated(i);
      }
    }

    /** What WaitForChild does about a session that ended, by its wait status. */
    method SessionExited(d: Entry, ghost i: nat, wait: nat, now: int)
      requires Valid() && i < |spine| && spine[i] == d
      modifies `displays, `spine, Repr()`next
      modifies d`pid, d`startTries, d`reservTries, d`lastReserv, d`status
      ensures Valid() && SameNodes(i)
      ensures Values(spine) == Displays.Replace(old(Values(spine)), i,
                                                Displays.SessionExit(old(d.Value()), Displays.ExitOf(wait), now))
    {
      hide Valid;
      NodesDiffer(i);
      ghost var was := Values(spine);
      var exit := Displays.ExitOf(wait);
      d.pid := None;
      if exit == Displays.Obeysess {
        d.startTries := 0;
        d.reservTries := 0;
      }
      if exit == Displays.Reserver || exit == Displays.Remanage {
        d.startTries := 0;
      }
      Updated(i);
      ghost var e := d.Value();
      match exit {
        case Unmanage => StopOrRestart(d, i, true);
        case Obeysess =>
          StopOrRestart(d, i, d.displayType.lifetime != Displays.Permanent || d.status == Displays.Zombie);
        case OpenFailed => FailedStart(d, i);
        case Reserver => Reservered(d, i, now);
        case Terminated => FailedStart(d, i);
        case Remanage =>
          StopOrRestart(d, i, d.displayType.origin == Displays.FromXdmcp || d.status == Displays.Zombie);
        case Unknown => StopOrRestart(d, i, true);
      }
      hide Displays.StopDisplay, Displays.RestartDisplay, Displays.RetryStart, Displays.RetryServer;
      assert Values(spine) == Displays.Replace(was[i := e], i, Displays.SessionExit(was[i], exit, now));
    }

    /** What WaitForChild does about a server that ended. */
    method ServerExited(d: Entry, ghost i: nat)
      requires Valid() && i < |spine| && spine[i] == d
      modifies `displays, `spine, Repr()`next, d`serverPid, d`status
      ensures Valid() && SameNodes(i)
      ensures Values(spine) == Displays.Replace(old(Values(spine)), i, Displays.ServerExit(old(d.Value())))
    {
      hide Valid;
      NodesDiffer(i);
      d.serverPid := None;
      if d.status == Displays.Zombie {
        RemoveDisplay(d, i);
        Removed(i);
        return;
      }
      if d.status == Displays.Phoenix {
        d.status := Displays.NotRunning;
      }
      Updated(i);
    }

    // -------------------------------------------------------------- going over the list

    method CheckDisplayStatus(d: Entry, ghost i: nat, db: Displays.Database, o: Displays.Outcome)
      requires Valid() && i < |spine| && spine[i] == d
      modifies `displays, `spine, `children, Repr()`next
      modifies d`resources, d`serverPid, d`pid, d`status, d`state
      ensures Valid() && SameNodes(i)
      ensures View() == Displays.Update(old(View()), i, Displays.CheckDisplayStatus(old(d.Value()), old(children), db, o))
    {
      hide Valid;
      NodesDiffer(i);
      if d.displayType.origin == Displays.FromFile {
        if d.state == Displays.MissingEntry {
          StopDisplay(d, i);
          return;
        }
        d.state := Displays.OldEntry;
        if d.displayType.lifetime == Displays.Permanent && d.status == Displays.NotRunning {
          ghost var was, e := old(Values(spine)), d.Value();
          Updated(i);
          hide Displays.StartDisplay;
          StartDisplay(d, i, db, o);
          assert Values(spine) == Displays.Replace(was[i := e], i, Displays.StartDisplay(e, old(children), db, o).display);
          return;
        }
      }
      Updated(i);
    }

    /** What is left to visit once the display at `i` was. */
    lemma RestToVisit(before: seq<Entry>, after: seq<Entry>, i: nat)
      requires i < |before| && (after == before || after == before[..i] + before[i + 1..])
      ensures var k := if |after| == |before| then i + 1 else i;
              k <= |after| && after[k..] == before[i + 1..] && NodeAt(before, i + 1) == NodeAt(after, k)
      ensures (set e | e in after) <= (set e | e in before)
    {
      assert forall j :: 0 <= j < |after| ==> after[j] in before;
      if after != before {
        assert after[i..] == before[i + 1..];
        assert i < |after| ==> after[i] == after[i..][0];
        assert i < |after| ==> before[i + 1] == before[i + 1..][0];
      }
    }

    /**
     One turn of `ForEachDisplay(CheckDisplayStatus)`: the next node is read first, since the display
     may be gone afterwards.
     */
    method CheckAndGoOn(d: Entry, ghost i: nat, db: Displays.Database, os: seq<Displays.Outcome>)
      returns (next: Entry?, ghost k: nat)
      requires Valid() && i < |spine| && spine[i] == d
      modifies `displays, `spine, `children, Repr()`next
      modifies d`resources, d`serverPid, d`pid, d`status, d`state
      ensures Valid() && Repr() <= old(Repr())
      ensures k <= |spine| && next == NodeAt(spine, k) && spine[k..] == old(spine)[i + 1..]
      ensures Displays.CheckFrom(View(), k, db, if os == [] then [] else os[1..])
           == Displays.CheckFrom(old(View()), i, db, os)
    {
      hide Displays.CheckDisplayStatus, Valid, Displays.Replace, Displays.CheckFrom, Values, NodeAt, Entry.Value;
      NodesAre(i);
      ValueAt(spine, i);
      next := d.next;
      CheckOne(View(), i, db, os);
      var o := if os == [] then Displays.FAILURE else os[0];
      CheckDisplayStatus(d, i, db, o);
      RestToVisit(old(spine), spine, i);
      k := if |spine| == |old(spine)| then i + 1 else i;
    }

    lemma ValueAt(es: seq<Entry>, i: nat)
      requires i < |es|
      ensures Values(es)[i] == es[i].Value()
    {
    }

    lemma CheckOne(st: Displays.State, i: nat, db: Displays.Database, os: seq<Displays.Outcome>)
      requires i < |st.displays|
      ensures var r := Displays.CheckDisplayStatus(st.displays[i], st.children, db, if os == [] then Displays.FAILURE else os[0]);
              Displays.CheckFrom(st, i, db, os)
              == Displays.CheckFrom(Displays.Update(st, i, r), if r.display == None then i else i + 1, db,
                                    if os == [] then [] else os[1..])
    {
      hide Displays.CheckDisplayStatus;
    }

    /**
     `ForEachDisplay(CheckDisplayStatus)`: each of the original displays is visited once, in order,
     although some are unlinked on the way.
     */
    method StartDisplays(db: Displays.Database, os: seq<Displays.Outcome>) returns (ghost visited: seq<Entry>)
      requires Valid()
      modifies this, Repr()
      ensures Valid() && Repr() <= old(Repr()) && visited == old(spine)
      ensures View() == Displays.StartDisplays(old(View()), db, os)
    {
      var d, left := displays, os;
      ghost var i: nat := 0;
      visited := [];
      assert d == NodeAt(spine, 0) && AreVisited([], spine, 0, spine);
      hide Displays.CheckFrom, View, Valid, Repr, AreVisited;
      while d != null
        invariant Valid() && i <= |spine| && d == NodeAt(spine, i) && Repr() <= old(Repr())
        invariant AreVisited(visited, spine, i, old(spine))
        invariant Displays.CheckFrom(View(), i, db, left) == Displays.CheckFrom(old(View()), 0, db, os)
        decreases |spine| - i
      {
        NodeIsInRepr(i);
        ghost var here: Entry, was, before := d, i, spine;
        d, i := CheckAndGoOn(d, i, db, left);
        left := if left == [] then [] else left[1..];
        VisitOne(visited, before, was, spine, i, old(spine));
        visited := visited + [here];
      }
      VisitedAll(visited, spine, old(spine));
      NothingToCheck(db, left);
    }

    /** These were visited, and what stands from `i` on is still to come. */
    predicate AreVisited(visited: seq<Entry>, es: seq<Entry>, i: nat, all: seq<Entry>) {
      i <= |es| && visited + es[i..] == all
    }

    lemma VisitOne(visited: seq<Entry>, before: seq<Entry>, i: nat, after: seq<Entry>, k: nat, all: seq<Entry>)
      requires AreVisited(visited, before, i, all)
      requires i < |before| && k <= |after| && after[k..] == before[i + 1..]
      ensures AreVisited(visited + [before[i]], after, k, all)
    {
      assert before[i..] == [before[i]] + before[i + 1..];
    }

    lemma VisitedAll(visited: seq<Entry>, es: seq<Entry>, all: seq<Entry>)
      requires AreVisited(visited, es, |es|, all)
      ensures visited == all
    {
      assert es[|es|..] == [];
    }

    lemma NodeIsInRepr(i: nat)
      requires i < |spine|
      ensures spine[i] in Repr()
    {
    }

    lemma NothingToCheck(db: Displays.Database, os: seq<Displays.Outcome>)
      ensures Displays.CheckFrom(View(), |spine|, db, os) == View()
    {
    }

    /** What stopping the displays from `i` on comes to. */
    ghost function StopRest(st: Displays.State, i: nat): Displays.State {
      if i <= |st.displays| then st.(displays := Displays.StopFrom(st.displays, i)) else st
    }

    /** One turn of `ForEachDisplay(StopDisplay)`. */
    method StopAndGoOn(d: Entry, ghost i: nat) returns (next: Entry?, ghost k: nat)
      requires Valid() && i < |spine| && spine[i] == d
      modifies `displays, `spine, Repr()`next, d`status
      ensures Valid() && Repr() <= old(Repr())
      ensures k <= |spine| && next == NodeAt(spine, k) && spine[k..] == old(spine)[i + 1..]
      ensures StopRest(View(), k) == StopRest(old(View()), i)
    {
      hide Displays.StopDisplay, Valid, Displays.Replace, Displays.StopFrom, Values, NodeAt, Entry.Value;
      NodesAre(i);
      ValueAt(spine, i);
      next := d.next;
      StopOne(Values(spine), i);
      StopDisplay(d, i);
      RestToVisit(old(spine), spine, i);
      k := if |spine| == |old(spine)| then i + 1 else i;
    }

    lemma StopOne(ds: seq<Displays.Display>, i: nat)
      requires i < |ds|
      ensures var r := Displays.StopDisplay(ds[i]);
              Displays.StopFrom(ds, i) == Displays.StopFrom(Displays.Replace(ds, i, r), if r == None then i else i + 1)
    {
      hide Displays.StopDisplay, Displays.Replace;
    }

    /** `ForEachDisplay(StopDisplay)` visits each of the original displays once, too. */
    method StopAll() returns (ghost visited: seq<Entry>)
      requires Valid()
      modifies this, Repr()
      ensures Valid() && Repr() <= old(Repr()) && visited == old(spine)
      ensures View() == Displays.StopAll(old(View()))
    {
      var d := displays;
      ghost var i: nat := 0;
      visited := [];
      assert d == NodeAt(spine, 0) && AreVisited([], spine, 0, spine);
      assert StopRest(View(), 0) == Displays.StopAll(View());
      hide StopRest, View, Valid, Repr, AreVisited;
      while d != null
        invariant Valid() && i <= |spine| && d == NodeAt(spine, i) && Repr() <= old(Repr())
        invariant AreVisited(visited, spine, i, old(spine))
        invariant StopRest(View(), i) == StopRest(old(View()), 0)
        decreases |spine| - i
      {
        NodeIsInRepr(i);
        ghost var here: Entry, was, before := d, i, spine;
        d, i := StopAndGoOn(d, i);
        VisitOne(visited, before, was, spine, i, old(spine));
        visited := visited + [here];
      }
      VisitedAll(visited, spine, old(spine));
      NothingToStop();
    }

    lemma NothingToStop()
      ensures StopRest(View(), |spine|) == View()
    {
    }

    /** Starts the first dynamic display that is not running. */
    method AddDisplay(db: Displays.Database, o: Displays.Outcome)
      requires Valid()
      modifies this, Repr()
      ensures Valid() && Repr() <= old(Repr())
      ensures View() == Displays.AddDynamic(old(View()), db, o)
    {
      hide Displays.StartDisplay;
      var d := displays;
      ghost var i: nat := 0;
      while d != null
        invariant i <= |spine| && d == NodeAt(spine, i)
        invariant displays == old(displays) && spine == old(spine) && View() == old(View()) && Valid()
        invariant Displays.FirstDynamic(Values(spine)) == i + Displays.FirstDynamic(Values(spine)[i..])
        decreases |spine| - i
      {
        var next := d.next;
        if d.displayType.origin == Displays.FromFile && d.displayType.lifetime == Displays.Transient
           && d.status == Displays.NotRunning {
          break;
        }
        d, i := next, i + 1;
      }
      assert i == Displays.FirstDynamic(Values(spine));
      if d != null {
        NodeIsInRepr(i);
        hide Valid, Displays.FirstDynamic;
        StartDisplay(d, i, db, o);
      }
    }

    // -------------------------------------------------------------- the servers file

    method MarkDisplay(d: Entry, ghost i: nat)
      requires Valid() && i < |spine| && spine[i] == d
      modifies d`state
      ensures Values(spine) == old(Values(spine))[i := old(Values(spine))[i].(state := Displays.MissingEntry)]
    {
      hide Valid;
      NodesDiffer(i);
      d.state := Displays.MissingEntry;
      Updated(i);
    }

    method MarkDisplays()
      requires Valid()
      modifies Repr()`state
      ensures Values(spine) == Displays.MarkAll(old(Values(spine)))
    {
      var d := displays;
      ghost var i: nat, was := 0, Values(spine);
      while d != null
        invariant i <= |spine| && d == NodeAt(spine, i) && |Values(spine)| == |was|
        invariant forall j :: 0 <= j < |was| ==>
                    Values(spine)[j] == if j < i then was[j].(state := Displays.MissingEntry) else was[j]
        decreases |spine| - i
      {
        var next := d.next;
        assert next == NodeAt(spine, i + 1);
        hide Valid, Values;
        NodeIsInRepr(i);
        MarkDisplay(d, i);
        d, i := next, i + 1;
      }
    }

    method NewDisplay(name: string, cls: Option<string>) returns (d: Entry)
      requires Valid()
      modifies `displays, `spine
      ensures fresh(d) && d.Value() == Displays.NewDisplay(name, cls) && spine == [d] + old(spine)
      ensures Valid() && Values(spine) == [d.Value()] + old(Values(spine))
    {
      d := new Entry(name, cls, displays);
      displays := d;
      spine := [d] + spine;
    }

    /** What a line says goes to the display it names, whatever that is, or to a new one. */
    method ParseDisplay(words: seq<string>)
      requires Valid()
      modifies `displays, `spine, `alive, Repr()
      ensures Valid() && fresh(Repr() - old(Repr()))
      ensures Values(spine) == Displays.ParseDisplay(old(Values(spine)), words)
      ensures alive == (old(alive) && !Displays.ReadsNull(old(Values(spine)), words))
    {
      if |words| < 2 {
        return;
      }
      hide Displays.TypeOf, Displays.HasClass, Displays.ArgumentsOf, Displays.NewDisplay, Displays.Retype,
        Displays.ReadsNullClass, Valid;
      var d, i := FindDisplayByName(words[0]);
      if d != null {
        NodeIsInRepr(i);
        RetypeDisplay(d, i, words);
      } else {
        AddParsed(words);
      }
    }

    method AddParsed(words: seq<string>)
      requires Valid() && |words| >= 2
      modifies `displays, `spine
      ensures Valid() && fresh(Repr() - old(Repr()))
      ensures Values(spine) == [Displays.NewDisplay(words[0], Displays.ClassOf(words)).(displayType := Displays.TypeOf(words),
                argv := Some(Displays.ArgumentsOf(words)))] + old(Values(spine))
    {
      hide Valid, Displays.ClassOf, Displays.TypeOf, Displays.ArgumentsOf;
      var displayType, cls, argv := TypeOf(words);
      var d := NewDisplay(words[0], cls);
      NodesDiffer(0);
      label made:
      d.displayType := displayType;
      d.argv := Some(argv);
      Updated@made(0);
    }

    method RetypeDisplay(d: Entry, ghost i: nat, words: seq<string>)
      requires Valid() && i < |spine| && spine[i] == d && |words| >= 2
      modifies `alive, d`state, d`cls, d`displayType, d`argv
      ensures alive == (old(alive) && !Displays.ReadsNullClass(old(d.Value()), words) && old(d.argv).Some?)
      ensures Values(spine) == old(Values(spine))[i := Displays.Retype(old(d.Value()), words)]
    {
      hide Valid, Displays.Retype, Displays.ReadsNullClass;
      NodesDiffer(i);
      var ok := Retype(d, words);
      alive := alive && ok;
      Updated(i);
    }

    /** The class is compared with the display's own, and the old arguments are freed: there must be both. */
    method Retype(d: Entry, words: seq<string>) returns (ok: bool)
      requires |words| >= 2
      modifies d`state, d`cls, d`displayType, d`argv
      ensures ok == (!Displays.ReadsNullClass(old(d.Value()), words) && old(d.argv).Some?)
      ensures d.Value() == Displays.Retype(old(d.Value()), words)
    {
      hide Displays.TypeOf, Displays.HasClass, Displays.ArgumentsOf;
      var displayType, cls, argv := TypeOf(words);
      d.state := Displays.OldEntry;
      if cls.Some? {
        if d.cls == None {
          return false;
        }
        if d.cls != cls {
          d.cls := cls;
        }
      }
      if d.argv == None {
        return false;
      }
      d.displayType := displayType;
      d.argv := Some(argv);
      return true;
    }

    method TypeOf(words: seq<string>)
      returns (displayType: Displays.DisplayType, cls: Option<string>, argv: seq<string>)
      requires |words| >= 2
      ensures displayType == Displays.TypeOf(words)
      ensures cls == Displays.ClassOf(words) && argv == Displays.ArgumentsOf(words)
    {
      var usedDefault;
      displayType, usedDefault := ParseDisplayType(words[1]);
      cls, argv := None, words[2..];
      if usedDefault && |words| > 2 {
        displayType, usedDefault := ParseDisplayType(words[2]);
        if !usedDefault {
          cls, argv := Some(words[1]), words[3..];
        }
      }
    }

    method ParseDisplayType(word: string) returns (t: Displays.DisplayType, usedDefault: bool)
      ensures usedDefault == (Displays.KnownType(word) == None)
      ensures t == if usedDefault then Displays.DisplayType(Displays.Local, Displays.Permanent, Displays.FromFile)
                   else Displays.KnownType(word).value
    {
      var names, types := ["local", "foreign", "dynamic"], [
        Displays.DisplayType(Displays.Local, Displays.Permanent, Displays.FromFile),
        Displays.DisplayType(Displays.Foreign, Displays.Permanent, Displays.FromFile),
        Displays.DisplayType(Displays.Local, Displays.Transient, Displays.FromFile)];
      for i := 0 to 3
        invariant forall j :: 0 <= j < i ==> names[j] != word
      {
        if names[i] == word {
          return types[i], false;
        }
      }
      assert word != names[0] && word != names[1] && word != names[2];
      return types[0], true;
    }

    /** The lines in order, unless one of them ends the manager. */
    method ScanServers(lines: seq<seq<string>>)
      requires Valid() && alive
      modifies `displays, `spine, `alive, Repr()
      ensures Valid() && fresh(Repr() - old(Repr()))
      ensures Values(spine) == Displays.ScanServers(old(Values(spine)), lines)
      ensures alive == Displays.Survives(old(Values(spine)), lines)
    {
      hide Displays.ParseDisplay, Displays.ReadsNull, Valid;
      for k := 0 to |lines|
        invariant Valid() && fresh(Repr() - old(Repr())) && alive
        invariant Displays.ScanServers(Values(spine), lines[k..]) == Displays.ScanServers(old(Values(spine)), lines)
        invariant Displays.Survives(Values(spine), lines[k..]) == Displays.Survives(old(Values(spine)), lines)
      {
        assert lines[k..][1..] == lines[k + 1..];
        ParseDisplay(lines[k]);
        if !alive {
          return;
        }
      }
    }

    /** Every display marked, and the servers file read. */
    method Reread(lines: seq<seq<string>>)
      requires Valid() && alive
      modifies `displays, `spine, `alive, Repr()
      ensures Valid() && fresh(Repr() - old(Repr()))
      ensures View() == Displays.Reread(old(View()), lines)
    {
      hide Displays.ScanServers, Displays.Survives, Displays.MarkAll;
      MarkDisplays();
      ScanServers(lines);
    }

    method RescanServers(lines: seq<seq<string>>, db: Displays.Database, os: seq<Displays.Outcome>)
      requires Valid() && alive
      modifies this, Repr()
      ensures Valid() && fresh(Repr() - old(Repr()))
      ensures View() == Displays.Rescan(old(View()), lines, db, os)
    {
      hide Displays.Reread, Displays.StartDisplays, Valid;
      Reread(lines);
      if alive {
        ghost var _ := StartDisplays(db, os);
      }
    }

    // -------------------------------------------------------------- reaping

    /** Finds out whose process it was, and reacts. */
    method ChildExited(pid: Pid, wait: nat, now: int)
      requires Valid()
      modifies `displays, `spine, `children, Repr()
      ensures Valid() && Repr() <= old(Repr())
      ensures View() == Displays.Dispatch(old(View()), pid, Displays.ExitOf(wait), now)
    {
      hide Displays.SessionExit, Displays.ServerExit, Valid, Displays.ExitOf, Displays.Replace;
      hide Displays.FirstWithPid, Displays.FirstWithServerPid;
      children := children - {pid};
      var d, i := FindDisplayByPid(pid);
      if d != null {
        NodeIsInRepr(i);
        SessionExited(d, i, wait, now);
        return;
      }
      d, i := FindDisplayByServerPid(pid);
      if d != null {
        NodeIsInRepr(i);
        ServerExited(d, i);
      }
    }

    /** One turn of the reaping loop; the servers file is read first when it was modified. */
    method Reap(pid: Pid, wait: nat, now: int, rescan: Option<seq<seq<string>>>)
      requires Valid() && alive
      modifies this, Repr()
      ensures Valid() && fresh(Repr() - old(Repr()))
      ensures View() == Displays.Reap(old(View()), pid, Displays.ExitOf(wait), now, rescan)
    {
      hide Displays.Dispatch, Displays.Reread, Displays.ExitOf, Valid;
      if rescan.Some? {
        Reread(rescan.value);
      }
      if alive {
        ChildExited(pid, wait, now);
      }
    }

    /** Reaps what there is to reap, then starts what should be running; the invariant survives both. */
    method WaitForChild(reaps: seq<Child>, db: Displays.Database, os: seq<Displays.Outcome>)
      requires Valid() && alive
      modifies this, Repr()
      ensures Valid() && fresh(Repr() - old(Repr()))
      ensures View() == Displays.Next(Displays.Run(old(View()), AsSteps(reaps)), Displays.Checked(db, os))
      ensures old(Inv(View())) ==> Inv(View())
    {
      hide Displays.Reap, Displays.StartDisplays, Valid, Inv;
      var k := 0;
      while k < |reaps| && alive
        invariant k <= |reaps| && Valid() && fresh(Repr() - old(Repr()))
        invariant Displays.Run(View(), AsSteps(reaps[k..])) == Displays.Run(old(View()), AsSteps(reaps))
        invariant old(Inv(View())) ==> Inv(View())
      {
        assert reaps[k..][1..] == reaps[k + 1..];
        var r := reaps[k];
        if Inv(View()) {
          StepKeeps(View(), AsStep(r));
        }
        Reap(r.pid, r.wait, r.now, r.rescan);
        k := k + 1;
      }
      if alive {
        if Inv(View()) {
          StepKeeps(View(), Displays.Checked(db, os));
        }
        ghost var _ := StartDisplays(db, os);
      } else {
        DeadRun(View(), AsSteps(reaps[k..]));
      }
    }

    // -------------------------------------------------------------- XDMCP displays

    /** The display a MANAGE creates takes the place of the first one of its name. */
    method TakeOver(name: string, cls: Option<string>, link: Displays.Link, db: Displays.Database, o: Displays.Outcome)
      requires Valid()
      modifies this, Repr()
      ensures Valid() && fresh(Repr() - old(Repr()))
      ensures View() == Displays.TakeOver(old(View()), name, cls, link, db, o)
    {
      hide Displays.StopDisplay, Displays.StartDisplay, Displays.StopNamed, Displays.Managed, Valid;
      StopNamed(name);
      var d := NewManaged(name, cls, link);
      StartDisplay(d, 0, db, o);
    }

    method StopNamed(name: string)
      requires Valid()
      modifies `displays, `spine, Repr()
      ensures Valid() && Repr() <= old(Repr())
      ensures Values(spine) == Displays.StopNamed(old(Values(spine)), name)
    {
      hide Displays.StopDisplay, Valid;
      var d, i := FindDisplayByName(name);
      if d != null {
        assert d in Repr();
        StopDisplay(d, i);
      }
    }

    method NewManaged(name: string, cls: Option<string>, link: Displays.Link) returns (d: Entry)
      requires Valid()
      modifies `displays, `spine
      ensures Valid() && fresh(d) && spine == [d] + old(spine) && d.Value() == Displays.Managed(name, cls, link)
      ensures Values(spine) == [Displays.Managed(name, cls, link)] + old(Values(spine))
    {
      hide Valid;
      d := NewDisplay(name, cls);
      NodesDiffer(0);
      label made:
      d.displayType := Displays.DisplayType(Displays.Foreign, Displays.Transient, Displays.FromXdmcp);
      d.link := link;
      Updated@made(0);
    }
  }
}
