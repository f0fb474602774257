/**
 The packets and files the manager does not survive: what reads through a null pointer or past an
 array, exactly, and what the history of packets has to do with it.
 */
module XdmcpFailures {
  import opened Options
  import opened Network
  import Globbing
  import AccessRules
  import opened XdmAuth
  import Displays
  import Lifecycle
  import Rescans
  import opened AccessQueries
  import opened Xdmcp
  import opened XdmcpHistory
  import XdmcpSessions

  // ---------------------------------------------------------------- which displays sent rho

  predicate IsAuthentication(e: Event, id: nat) {
    e.Accepted? && e.id == id && e.authenticated
  }

  /** A request for the session id was accepted after its display had authenticated. */
  predicate HasAuthenticated(log: seq<Event>, id: nat) {
    exists i :: 0 <= i < |log| && IsAuthentication(log[i], id)
  }

  predicate RhoIs(log: seq<Event>, p: Proto) {
    p.credentials.rho.Some? <==> HasAuthenticated(log, p.sessionID)
  }

  predicate AcceptedIds(log: seq<Event>, n: nat) {
    forall i :: 0 <= i < |log| && log[i].Accepted? ==> log[i].id <= n
  }

  /** A proto-display has a rho exactly when a request for its session id authenticated. */
  ghost predicate RhoKnown(w: World) {
    AcceptedIds(w.log, w.globalSessionID) && forall k :: 0 <= k < |w.protos| ==> RhoIs(w.log, w.protos[k])
  }

  lemma AuthenticatedOrBefore(log: seq<Event>, more: seq<Event>, id: nat)
    ensures HasAuthenticated(log + more, id) <==> HasAuthenticated(log, id) || HasAuthenticated(more, id)
  {
    if i :| 0 <= i < |log| && IsAuthentication(log[i], id) {
      assert IsAuthentication((log + more)[i], id);
    }
    if i :| 0 <= i < |more| && IsAuthentication(more[i], id) {
      assert IsAuthentication((log + more)[|log| + i], id);
    }
    if i :| 0 <= i < |log + more| && IsAuthentication((log + more)[i], id) {
      assert if i < |log| then IsAuthentication(log[i], id) else IsAuthentication(more[i - |log|], id);
    }
  }

  lemma AuthorizeRho(p: Credentials, env: Env, r: RequestPacket, random: Option<Bytes>)
    requires random.Some? ==> |random.value| >= 16
    ensures var v := Authorize(p, env, r, random);
            && (v.Granted? ==> (v.credentials.rho.Some? <==> p.rho.Some? || Authenticates(r)))
            && (v.NullCopy? ==> v.credentials.rho == p.rho)
  {
    hide SelectAuthorization, GetKey;
  }

  /** Proto-displays that were there before, and events that accept nothing. */
  lemma FewerRho(w: World, after: World, more: seq<Event>)
    requires RhoKnown(w) && after.log == w.log + more && w.globalSessionID <= after.globalSessionID
    requires forall i :: 0 <= i < |after.protos| ==> after.protos[i] in w.protos
    requires forall i :: 0 <= i < |more| ==> !more[i].Accepted?
    ensures RhoKnown(after)
  {
    forall k | 0 <= k < |after.protos| ensures RhoIs(after.log, after.protos[k]) {
      AuthenticatedOrBefore(w.log, more, after.protos[k].sessionID);
      var l :| 0 <= l < |w.protos| && w.protos[l] == after.protos[k];
      assert RhoIs(w.log, w.protos[l]);
    }
  }

  lemma GrantRho(w: World, env: Env, r: RequestPacket, random: Option<Bytes>, i: nat)
    requires i < |w.protos| && (random.Some? ==> |random.value| >= 16)
    requires XdmcpSessions.DistinctProtos(w.protos) && RhoKnown(w) && w.protos[i].sessionID <= w.globalSessionID
    ensures RhoKnown(Grant(w, env, r, random, i))
  {
    var after, p := Grant(w, env, r, random, i), w.protos[i];
    var verdict := Authorize(p.credentials, env, r, random);
    AuthorizeRho(p.credentials, env, r, random);
    hide Authorize;
    if verdict.TurnedDown? {
      FewerRho(w, after, [Declined(r.from)]);
      return;
    }
    assert RhoIs(w.log, p);
    forall k | 0 <= k < |after.protos| ensures RhoIs(after.log, after.protos[k]) {
      assert RhoIs(w.log, w.protos[k]);
      if k != i {
        assert XdmcpSessions.Differ(w.protos[if k < i then k else i], w.protos[if k < i then i else k]);
      }
      if verdict.Granted? {
        var e := after.log[|w.log|];
        AuthenticatedOrBefore(w.log, [e], w.protos[k].sessionID);
        assert HasAuthenticated([e], w.protos[k].sessionID) <==> IsAuthentication([e][0], w.protos[k].sessionID);
      }
    }
  }

  lemma CreateRho(w: World, env: Env, r: RequestPacket, now: int)
    requires Admissible(env, r) && RhoKnown(w) && w.globalSessionID + 1 < CARD32_LIMIT
    ensures RhoKnown(Create(w, env, r, now))
  {
    var made, id := Create(w, env, r, now), w.globalSessionID + 1;
    TimeoutIsSubset(w.protos, now);
    hide Admissible, ConnectionOf, TimeoutProtos;
    var without := made.(protos := made.protos[1..]);
    FewerRho(w, without, [Created(id, r.from, r.number)]);
    assert !HasAuthenticated(made.log, id);
    forall k | 0 <= k < |made.protos| ensures RhoIs(made.log, made.protos[k]) {
      if k > 0 {
        assert RhoIs(without.log, without.protos[k - 1]);
      }
    }
  }

  lemma RequestRho(w: World, env: Env, r: RequestPacket, now: int, random: Option<Bytes>)
    requires (random.Some? ==> |random.value| >= 16) && XdmcpSessions.Sessions(w) && RhoKnown(w)
    requires Request(w, env, r, now, random).globalSessionID < CARD32_LIMIT
    ensures RhoKnown(Request(w, env, r, now, random))
  {
    XdmcpSessions.RequestCounts(w, env, r, now, random);
    IdsAreIssued(w);
    hide XdmcpSessions.Sessions, RhoKnown, Grant, Admissible, Overreads, ConnectionOf, Create;
    var i := FindProto(w.protos, r.from, r.number);
    if i < |w.protos| {
      GrantRho(w, env, r, random, i);
    } else if Admissible(env, r) {
      CreateRho(w, env, r, now);
      CreatedDiffer(w, env, r, now);
      GrantRho(Create(w, env, r, now), env, r, random, 0);
    } else {
      var after := Request(w, env, r, now, random);
      assert after.log == w.log + after.log[|w.log|..];
      FewerRho(w, after, after.log[|w.log|..]);
    }
  }

  lemma IdsAreIssued(w: World)
    requires XdmcpSessions.Sessions(w)
    ensures XdmcpSessions.DistinctProtos(w.protos) && w.globalSessionID < CARD32_LIMIT
    ensures forall k :: 0 <= k < |w.protos| ==> w.protos[k].sessionID <= w.globalSessionID
  {
  }

  lemma CreatedDiffer(w: World, env: Env, r: RequestPacket, now: int)
    requires Admissible(env, r) && XdmcpSessions.Sessions(w) && w.globalSessionID + 1 < CARD32_LIMIT
    requires FindProto(w.protos, r.from, r.number) == |w.protos|
    ensures var made := Create(w, env, r, now);
            XdmcpSessions.DistinctProtos(made.protos) && made.protos[0].sessionID <= made.globalSessionID
  {
    var made := Create(w, env, r, now);
    XdmcpSessions.SessionFacts(w);
    XdmcpSessions.NotFound(w.protos, r.from, r.number);
    XdmcpSessions.FreshId(w, w.globalSessionID + 1);
    XdmcpSessions.TimeoutFewer(w.protos, now);
    var rest := TimeoutProtos(w.protos, now);
    assert made.protos == [made.protos[0]] + rest;
    hide XdmcpSessions.Sessions, Admissible, ConnectionOf;
    XdmcpSessions.OldProtosDiffer(w.protos, rest, w.globalSessionID + 1, r.from, r.number);
    forall k, l | 0 <= k < l < |made.protos| ensures XdmcpSessions.Differ(made.protos[k], made.protos[l]) {
      assert made.protos[l] == rest[l - 1];
      if k > 0 {
        assert made.protos[k] == rest[k - 1];
      }
    }
  }

  lemma StepRho(w: World, step: Step)
    requires Possible(step) && XdmcpSessions.Sessions(w) && RhoKnown(w)
    requires Next(w, step).globalSessionID < CARD32_LIMIT
    ensures RhoKnown(Next(w, step))
  {
    if !w.dm.alive {
    } else if step.Requested? {
      RequestRho(w, step.env, step.packet, step.now, step.random);
    } else {
      OtherShape(w, step);
      XdmcpSessions.CounterGrows(w, step);
      hide Next, RhoKnown, XdmcpSessions.Sessions, Possible;
      FewerRho(w, Next(w, step), Next(w, step).log[|w.log|..]);
    }
  }

  lemma {:induction false} RunRho(w: World, steps: seq<Step>)
    requires AllPossible(steps) && XdmcpSessions.Sessions(w) && RhoKnown(w)
    requires Run(w, steps).globalSessionID < CARD32_LIMIT
    ensures RhoKnown(Run(w, steps))
    decreases steps
  {
    if steps != [] {
      var mid := Next(w, steps[0]);
      XdmcpSessions.CounterNeverFalls(mid, steps[1..]);
      StepRho(w, steps[0]);
      XdmcpSessions.StepKeepsSessions(w, steps[0]);
      hide XdmcpSessions.Sessions, RhoKnown, Next;
      RunRho(mid, steps[1..]);
    }
  }

  // ---------------------------------------------------------------- what ends the manager

  /** A line of the servers file names a display from XDMCP, or gives a class to a display that has none. */
  predicate RereadEnds(ds: seq<Displays.Display>, lines: seq<seq<string>>) {
    exists k :: 0 <= k < |lines| && Rescans.IsFatal(ds, lines, k)
  }

  /** What a step has to be to end a manager that is in this state and has done this. */
  predicate Ends(w: World, step: Step) {
    match step
    case Queried(env, kind, from) =>
      var c := ClientOf(from);
      Family(from) >= 0 && AcceptOverruns(env.db, env.noFile, c, env.hostname(c), kind)
    case QueriedIndirectly(env, from, _) => IndirectOverruns(env.db, ClientOf(from), env.hostname(ClientOf(from)))
    case Requested(env, r, _, random) =>
      var i := FindProto(w.protos, r.from, r.number);
      if i < |w.protos| then NeedsEarlierRho(r, random) && !HasAuthenticated(w.log, w.protos[i].sessionID)
      else if Admissible(env, r) then NeedsEarlierRho(r, random)
      else Overreads(env, r)
    case ManageCame(env, from, number, id, _, _, _) =>
      IsNamed(w, env, from, number, id) && ChooserOverruns(w, env, ClientOf(from))
    case Ran(Reaped(_, _, _, rescan)) => rescan.Some? && RereadEnds(w.dm.displays, rescan.value)
    case Ran(Rescanned(lines, _, _)) => RereadEnds(w.dm.displays, lines)
    case _ => false
  }

  lemma DisplaysEnd(st: Displays.State, step: Displays.Step)
    requires Lifecycle.Inv(st) && st.alive && !step.TakenOver?
    ensures !Displays.Next(st, step).alive <==>
              if step.Reaped? then step.rescan.Some? && RereadEnds(st.displays, step.rescan.value)
              else step.Rescanned? && RereadEnds(st.displays, step.lines)
  {
    hide Displays.Reread, Displays.StopFrom, Rescans.IsFatal, Lifecycle.Inv;
    match step
    case Reaped(_, _, _, rescan) =>
      if rescan.Some? {
        Rescans.RereadSurvivesExactly(st, rescan.value);
      }
    case Checked(db, os) => CheckingSpares(st, 0, db, os);
    case Rescanned(lines, db, os) =>
      Rescans.RereadSurvivesExactly(st, lines);
      CheckingSpares(Displays.Reread(st, lines), 0, db, os);
    case _ =>
  }

  lemma {:induction false} CheckingSpares(st: Displays.State, i: nat, db: Displays.Database, os: seq<Displays.Outcome>)
    requires i <= |st.displays|
    ensures Displays.CheckFrom(st, i, db, os).alive == st.alive
    decreases |st.displays| - i
  {
    hide Displays.CheckDisplayStatus;
    if i < |st.displays| {
      var r := Displays.CheckDisplayStatus(st.displays[i], st.children, db, Displays.OutcomeAt(os));
      CheckingSpares(Displays.Update(st, i, r), if r.display == None then i else i + 1, db, if os == [] then [] else os[1..]);
    }
  }

  lemma GrantEnds(w: World, env: Env, r: RequestPacket, random: Option<Bytes>, i: nat)
    requires i < |w.protos| && (random.Some? ==> |random.value| >= 16) && w.dm.alive
    ensures !Grant(w, env, r, random, i).dm.alive <==> NeedsEarlierRho(r, random) && w.protos[i].credentials.rho == None
  {
    GrantedExactly(w.protos[i].credentials, env, r, random);
    hide Authorize, NeedsEarlierRho;
  }

  lemma RequestEnds(w: World, env: Env, r: RequestPacket, now: int, random: Option<Bytes>)
    requires (random.Some? ==> |random.value| >= 16) && w.dm.alive && RhoKnown(w)
    ensures !Request(w, env, r, now, random).dm.alive <==> Ends(w, Requested(env, r, now, random))
  {
    hide NeedsEarlierRho, Grant, Admissible, Overreads, ConnectionOf, HasAuthenticated;
    var i := FindProto(w.protos, r.from, r.number);
    if i < |w.protos| {
      assert RhoIs(w.log, w.protos[i]);
      GrantEnds(w, env, r, random, i);
    } else if Admissible(env, r) {
      GrantEnds(Create(w, env, r, now), env, r, random, 0);
    }
  }

  lemma QueryEnds(w: World, env: Env, from: Netaddr, now: int)
    requires w.dm.alive
    ensures !RespondIndirect(w, env, from, now).dm.alive <==> IndirectOverruns(env.db, ClientOf(from), env.hostname(ClientOf(from)))
  {
    hide IndirectOverruns, Acceptable, ChooserEntry, IndirectTargets, Forwards;
  }

  lemma StepEnds(w: World, step: Step)
    requires Possible(step) && w.dm.alive && RhoKnown(w) && Lifecycle.Inv(w.dm)
    ensures !Next(w, step).dm.alive <==> Ends(w, step)
  {
    hide Request, RespondIndirect, Displays.Next, HasAuthenticated, RereadEnds, AcceptOverruns, Acceptable, IndirectOverruns,
      ChooserOverruns, IsDuplicate, Displays.StartDisplay, Displays.StopNamed, UsesChooser, Consult, Lifecycle.Inv;
    match step
    case QueriedIndirectly(env, from, now) => QueryEnds(w, env, from, now);
    case Requested(env, r, now, random) => RequestEnds(w, env, r, now, random);
    case Ran(s) => DisplaysEnd(w.dm, s);
    case ManageCame(env, from, number, id, displayClass, now, o) =>
      if Starts(w, env, from, number, id) {
        StartSpares(w, env, from, number, id, displayClass, now, o);
      }
      hide StartSession;
    case _ =>
  }

  lemma StartSpares(w: World, env: Env, from: Netaddr, number: nat, id: nat, displayClass: string, now: int,
          o: Displays.Outcome)
    requires Starts(w, env, from, number, id)
    ensures StartSession(w, env, from, number, id, displayClass, now, o).dm.alive == w.dm.alive
  {
    hide UsesChooser, Consult, Displays.StartDisplay, Displays.StopNamed;
  }

  lemma {:induction false} RunKeepsDisplays(w: World, steps: seq<Step>)
    requires AllPossible(steps) && Lifecycle.Inv(w.dm)
    ensures Lifecycle.Inv(Run(w, steps).dm)
    decreases steps
  {
    hide Lifecycle.Inv;
    if steps != [] {
      PacketsKeepDisplays(w, steps[0]);
      RunKeepsDisplays(Next(w, steps[0]), steps[1..]);
    }
  }

  /**
   After any run the manager lived through, until the ids wrap, and whatever the access file, the names
   and the keys are: the steps it does not survive are exactly
   - a REQUEST for an authorization made with rho, from a display none of whose requests authenticated,
     this one included;
   - a first REQUEST that lists a type whose address it lacks, where that address is looked at;
   - a query, a first REQUEST or a MANAGE that is matched past the end of a pattern or of a macro's name;
   - a servers file that names a display from XDMCP, or gives a class to a display without one.
   */
  lemma ManagerEndsExactly(time: nat, timeout: int, steps: seq<Step>, step: Step)
    requires AllPossible(steps) && Possible(step) && Run(Init(time, timeout), steps).dm.alive
    requires Run(Init(time, timeout), steps).globalSessionID - InitSessionID(time) <= XdmcpSessions.IDS_BEFORE_WRAP
    ensures var w := Run(Init(time, timeout), steps);
            !Next(w, step).dm.alive <==> Ends(w, step)
  {
    RunRho(Init(time, timeout), steps);
    RunKeepsDisplays(Init(time, timeout), steps);
    hide Run, Ends, Next, RhoKnown, Lifecycle.Inv;
    StepEnds(Run(Init(time, timeout), steps), step);
  }

  // ---------------------------------------------------------------- at concrete packets

  /** A REQUEST that asks for XDM-AUTHORIZATION-1 and does not authenticate. */
  const LONE := RequestPacket(Netaddr(AfInet, [0, 177], [10, 0, 0, 1]), 0, [FAMILY_INTERNET], [[10, 0, 0, 1]],
                              [], [], [XDM_AUTHORIZATION], [])

  lemma LoneIs(env: Env, random: Bytes)
    requires env.noFile
    ensures Admissible(env, LONE) && NeedsEarlierRho(LONE, Some(random)) && Grantable(env, LONE)
  {
    assert Connections(LONE.connectionTypes, LONE.connectionAddresses) == [ClientOf(LONE.from)];
    assert FirstKnown(LONE.authorizationNames) == Some(XDM_AUTHORIZATION);
    assert |XDM_AUTHENTICATION| == 20 && |XDM_AUTHORIZATION| == 19;
    assert LONE.authorizationNames[0] == XDM_AUTHORIZATION && !Authenticates(LONE);
    assert SelectAuthorization([], LONE.authorizationNames) == Some(XDM_AUTHORIZATION);
  }

  /** As the first packet of a run it ends the manager. */
  lemma NullCopyHappens(time: nat, timeout: int, env: Env, now: int, random: Bytes)
    requires env.noFile && |random| >= 16
    ensures !Next(Init(time, timeout), Requested(env, LONE, now, Some(random))).dm.alive
  {
    LoneIs(env, random);
    hide NeedsEarlierRho, Admissible, ConnectionOf, Grant;
    GrantEnds(Create(Init(time, timeout), env, LONE, now), env, LONE, Some(random), 0);
  }

  /** After a REQUEST of the same display that authenticated, the same packet is served. */
  lemma ServedOnceAuthenticated(time: nat, timeout: int, env: Env, data: Bytes, now: int, later: int, random: Bytes)
    requires env.noFile && |random| >= 16 && |data| == 8 && GetKey(env.keys, LONE.displayID).Some?
    ensures var first := LONE.(authenticationName := XDM_AUTHENTICATION, authenticationData := data);
            var w := Next(Init(time, timeout), Requested(env, first, now, Some(random)));
            var log := Next(w, Requested(env, LONE, later, Some(random))).log;
            && w.dm.alive && |w.log| == 2 && w.log[1].Accepted? && |log| == 3
            && log[2].Accepted? && log[2].id == w.log[1].id && log[2].offered.Some?
  {
    var first := LONE.(authenticationName := XDM_AUTHENTICATION, authenticationData := data);
    LoneIs(env, random);
    assert first.authorizationNames[0] == XDM_AUTHORIZATION;
    assert SelectAuthorization(XDM_AUTHENTICATION, first.authorizationNames) == Some(XDM_AUTHORIZATION);
    assert ConnectionOf(env, first) == ConnectionOf(env, LONE);
    var made := Create(Init(time, timeout), env, first, now);
    ServedWhenKnown(NO_CREDENTIALS, env, first, random);
    hide Authorize, ConnectionOf, SelectAuthorization, GetKey, Offered;
    var w := Grant(made, env, first, Some(random), 0);
    assert w == Next(Init(time, timeout), Requested(env, first, now, Some(random)));
    ServedWhenKnown(w.protos[0].credentials, env, LONE, random);
  }

  /** With rho at hand, or coming along, a grantable request for XDM-AUTHORIZATION-1 gets one. */
  lemma ServedWhenKnown(p: Credentials, env: Env, r: RequestPacket, random: Bytes)
    requires |random| >= 16 && Grantable(env, r) && (p.rho.Some? || Authenticates(r)) && r.authorizationNames != []
    requires SelectAuthorization(r.authenticationName, r.authorizationNames) == Some(XDM_AUTHORIZATION)
    ensures var v := Authorize(p, env, r, Some(random));
            v.Granted? && v.credentials.rho.Some? && Offered(v.credentials).Some?
  {
    DistinctProtocols();
    hide SelectAuthorization, GetKey;
  }

  /** A REQUEST with a connection type and no address ends the manager, too. */
  lemma OverrunHappens(time: nat, timeout: int, env: Env, now: int, random: Option<Bytes>)
    requires env.noFile && (random.Some? ==> |random.value| >= 16)
    ensures !Next(Init(time, timeout), Requested(env, LONE.(connectionAddresses := []), now, random)).dm.alive
  {
    var r := LONE.(connectionAddresses := []);
    assert LooksPast(r.connectionTypes, r.connectionAddresses, ClientOf(r.from), 0);
    hide Grant, Create;
  }

  /** A pattern that ends in a single backslash, which is read past for "ax" and not for "a". */
  const BAD_PATTERN := "*x\\"

  lemma BadPatternIs()
    ensures Globbing.Scan("ax", BAD_PATTERN) == Globbing.Overrun && Globbing.Scan("a", BAD_PATTERN) == Globbing.NoMatch
  {
    assert BAD_PATTERN[1..] == "x\\" && "x\\"[1..] == "\\" && "ax"[1..] == "x" && "x"[1..] == "" && "a"[1..] == "";
    assert Globbing.Scan("", "\\") == Globbing.Overrun && Globbing.Scan("x", "x\\") == Globbing.Overrun;
    assert Globbing.Scan("ax", "x\\") == Globbing.NoMatch && Globbing.Scan("a", "x\\") == Globbing.NoMatch;
    assert Globbing.ScanStar("x", "x\\") == Globbing.Overrun && Globbing.ScanStar("ax", "x\\") == Globbing.Overrun;
    assert Globbing.ScanStar("", "x\\") == Globbing.NoMatch && Globbing.ScanStar("a", "x\\") == Globbing.NoMatch;
  }

  /** So a query from a client of that name ends the manager where the access file has that pattern, and one from "a" does not. */
  lemma PatternOverrunHappens(time: nat, timeout: int, env: Env, from: Netaddr)
    requires !env.noFile && Family(from) >= 0
    requires env.db == [AccessRules.DisplayEntry(AccessRules.DisplayPattern(BAD_PATTERN), false, false, false, [])]
    ensures env.hostname(ClientOf(from)) == "ax" ==> !Next(Init(time, timeout), Queried(env, DirectQuery, from)).dm.alive
    ensures env.hostname(ClientOf(from)) == "a" ==> Next(Init(time, timeout), Queried(env, DirectQuery, from)).dm.alive
  {
    BadPatternIs();
    assert env.db[1..] == [];
    hide Globbing.Scan;
  }

  // ---------------------------------------------------------------- the age of proto-displays

  /**
   Ages are compared on unsigned numbers: with a clock that does not go back, a proto-display is
   dropped when it is older than thirty minutes, 1800 seconds, and at any age while the clock is below them.
   */
  lemma ExpiryExactly(made: int, now: int)
    requires 0 <= made <= now < ULONG_LIMIT - 1800
    ensures Expired(Date(made), now) <==> now - made > 1800 || now < 1800
  {
  }
}
