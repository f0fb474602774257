/**
 What queries and requests are answered with: who is told that it is welcome, to whom an indirect
 query goes, and that a choice made with the chooser is followed.
 */
module XdmcpAnswers {
  import opened Options
  import opened Network
  import opened Choices
  import AccessRules
  import opened AccessQueries
  import opened XdmAuth
  import Displays
  import Lifecycle
  import opened Xdmcp
  import XdmcpSessions
  import opened XdmcpHistory

  /** From event `n` on, the log holds this one. */
  predicate Since(log: seq<Event>, n: nat, e: Event) {
    exists k :: n <= k < |log| && log[k] == e
  }

  lemma SinceSplit(log: seq<Event>, more: seq<Event>, rest: seq<Event>, e: Event)
    ensures Since(log + more + rest, |log|, e) <==> e in more || Since(log + more + rest, |log + more|, e)
    ensures Since(log + more, |log|, e) <==> e in more
  {
    var all := log + more + rest;
    if k :| |log| <= k < |all| && all[k] == e {
      assert k < |log + more| ==> more[k - |log|] == e;
    }
    if e in more {
      var k :| 0 <= k < |more| && more[k] == e;
      assert all[|log| + k] == e && (log + more)[|log| + k] == e;
    }
    if k :| |log| <= k < |log + more| && (log + more)[k] == e {
      assert more[k - |log|] == e;
    }
  }

  // ---------------------------------------------------------------- queries answered here

  predicate IsWelcome(env: Env, kind: QueryKind, from: Netaddr) {
    var c := ClientOf(from);
    env.noFile || kind == IndirectQuery || IsLetIn(env.db, c, env.hostname(c), kind)
  }

  /** What a query is answered with: willing if welcome; if not, unwilling when asked directly, and nothing when not. */
  predicate IsReply(env: Env, kind: QueryKind, from: Netaddr, e: Event) {
    Family(from) >= 0 &&
    match e
    case Answered(c, indirect) => c == ClientOf(from) && (indirect <==> kind == IndirectQuery)
    case SentWilling(to) => to == from && IsWelcome(env, kind, from)
    case SentUnwilling(to) => to == from && kind == DirectQuery && !IsWelcome(env, kind, from)
    case _ => false
  }

  lemma RespondExactly(w: World, env: Env, kind: QueryKind, from: Netaddr, e: Event)
    requires Respond(w, env, kind, from).dm.alive
    ensures var log := Respond(w, env, kind, from).log;
            && |w.log| <= |log| && log[..|w.log|] == w.log
            && (Since(log, |w.log|, e) <==> IsReply(env, kind, from, e))
  {
    var c := ClientOf(from);
    AcceptableExactly(env.db, env.noFile, c, env.hostname(c), kind);
    hide Acceptable, AcceptOverruns, IsLetIn, Since;
    var log := Respond(w, env, kind, from).log;
    assert Family(from) < 0 ==> log == w.log + [];
    var more := log[|w.log|..];
    assert log == w.log + more;
    SinceSplit(w.log, more, [], e);
    if Family(from) >= 0 {
      var answer := if IsWelcome(env, kind, from) then [SentWilling(from)] else if kind == DirectQuery then [SentUnwilling(from)] else [];
      assert more == [Answered(c, kind == IndirectQuery)] + answer;
    }
  }

  /**
   A query that is survived and answered here: the answer is willing exactly if there is no access file or
   an entry lets the client in, and only a direct query is answered when it does not.
   */
  lemma QueryAnsweredExactly(w: World, env: Env, kind: QueryKind, from: Netaddr, e: Event)
    requires w.dm.alive && kind != IndirectQuery && kind != OnRequest
    requires Next(w, Queried(env, kind, from)).dm.alive
    ensures var log := Next(w, Queried(env, kind, from)).log;
            |w.log| <= |log| && (Since(log, |w.log|, e) <==> IsReply(env, kind, from, e))
  {
    RespondExactly(w, env, kind, from, e);
  }

  // ---------------------------------------------------------------- where indirect queries go

  /** The forward of this sender's query to an IPv4 or IPv6 address, with or without an interface: it names the client, or this host if the client is here. */
  predicate IsForward(env: Env, from: Netaddr, e: Event) {
    && e.Forwarded? && |e.target| in {4, 8, 16, 20} && e.port == from.port
    && var own := env.ownAddress(e.target);
       e.claimed == if env.isLocal(ClientOf(from)) && own.Some? then own.value else from.host
  }

  lemma {:induction false} ForwardsOf(env: Env, from: Netaddr, calls: seq<AccessRules.Called>, e: Event)
    ensures e in Forwards(env, from, calls) <==> IsForward(env, from, e) && AccessRules.CalledAddress(e.target) in calls
  {
    if calls != [] {
      ForwardsOf(env, from, calls[1..], e);
      assert forall call :: call in calls <==> call == calls[0] || call in calls[1..];
      var all, rest := Forwards(env, from, calls), Forwards(env, from, calls[1..]);
      assert calls[0].CalledAddress? && Sendable(calls[0].address) ==> all == [all[0]] + rest;
    }
  }

  /** All that an indirect query that is survived adds to the log. */
  lemma IndirectLog(w: World, env: Env, from: Netaddr, now: int, e: Event)
    requires Next(w, QueriedIndirectly(env, from, now)).dm.alive
    ensures var c, log := ClientOf(from), Next(w, QueriedIndirectly(env, from, now)).log;
            var targets := IndirectTargets(env.db, env.isLocal, c, env.hostname(c), Lookup(w.choices, c, now, w.timeout).0);
            && |w.log| <= |log|
            && (Since(log, |w.log|, e) <==>
                  || (ChooserEntry(env.db, c, env.hostname(c)) && e == Consulted(c, now))
                  || (IsForward(env, from, e) && AccessRules.CalledAddress(e.target) in targets.calls)
                  || (targets.local && IsReply(env, IndirectQuery, from, e)))
  {
    IndirectlyMeans(w, env, from, now);
    var c := ClientOf(from);
    var targets := IndirectTargets(env.db, env.isLocal, c, env.hostname(c), Lookup(w.choices, c, now, w.timeout).0);
    var sent := Forwarding(w, env, from, now, targets.calls, e);
    hide Since, Consult, ChooserEntry, IndirectTargets, Forwards, Next, IsForward, Respond, IsReply;
    if targets.local {
      RespondExactly(sent, env, IndirectQuery, from, e);
      var log := Respond(sent, env, IndirectQuery, from).log;
      var more, rest := sent.log[|w.log|..], log[|sent.log|..];
      assert sent.log == w.log + more && log == w.log + more + rest;
      SinceSplit(w.log, more, rest, e);
    }
  }

  /** The state before an indirect query is answered here, if it is. */
  lemma Forwarding(w: World, env: Env, from: Netaddr, now: int, calls: seq<AccessRules.Called>, e: Event) returns (sent: World)
    ensures var asked := Consult(w, env, ClientOf(from), now); sent == asked.(log := asked.log + Forwards(env, from, calls))
    ensures |w.log| <= |sent.log| && sent.log[..|w.log|] == w.log
    ensures Since(sent.log, |w.log|, e) <==>
              || (ChooserEntry(env.db, ClientOf(from), env.hostname(ClientOf(from))) && e == Consulted(ClientOf(from), now))
              || (IsForward(env, from, e) && AccessRules.CalledAddress(e.target) in calls)
  {
    hide ChooserEntry, Forwards, IsForward, Since;
    var c, f := ClientOf(from), Forwards(env, from, calls);
    var asked := Consult(w, env, c, now);
    sent := asked.(log := asked.log + f);
    ForwardsOf(env, from, calls, e);
    var more := (if ChooserEntry(env.db, c, env.hostname(c)) then [Consulted(c, now)] else []) + f;
    assert sent.log == w.log + more;
    SinceSplit(w.log, more, [], e);
  }

  lemma IndirectlyMeans(w: World, env: Env, from: Netaddr, now: int)
    requires Next(w, QueriedIndirectly(env, from, now)).dm.alive
    ensures Next(w, QueriedIndirectly(env, from, now)) == Forward(w, env, from, now)
  {
  }

  lemma ProducesCall(targets: AccessRules.Walk, to: Bytes)
    ensures AccessRules.Produces(targets, AccessRules.Call(AccessRules.CalledAddress(to))) <==>
              AccessRules.CalledAddress(to) in targets.calls
    ensures AccessRules.Produces(targets, AccessRules.LocalHost) <==> targets.local
  {
  }

  /** The entry is not negated, and its hosts lead to this through the macros. */
  ghost predicate Reaches(env: Env, c: Client, i: nat, o: AccessRules.Outcome)
    requires i < |env.db|
  {
    && !env.db[i].notAllowed
    && AccessRules.Reachable(AccessRules.Setting(env.db, Near(env.isLocal, c), false), env.db[i].hosts, o)
  }

  /**
   An indirect query that the manager survives, whose first entry with hosts is not a CHOOSER entry, is
   forwarded to exactly the hosts that entry reaches through the macros, as far as their addresses
   can be sent to, and answered here exactly if it reaches this host. Nothing else is done.
   */
  lemma ForwardsExactly(w: World, env: Env, from: Netaddr, now: int, i: nat, e: Event)
    requires Next(w, QueriedIndirectly(env, from, now)).dm.alive && |AccessRules.Macros(env.db)| <= AccessRules.MAX_DEPTH
    requires IsFirstEntry(env.db, ClientOf(from), env.hostname(ClientOf(from)), true, i) && !env.db[i].chooser
    ensures var c, log := ClientOf(from), Next(w, QueriedIndirectly(env, from, now)).log;
            && |w.log| <= |log|
            && (Since(log, |w.log|, e) <==>
                  || (IsForward(env, from, e) && Reaches(env, c, i, AccessRules.Call(AccessRules.CalledAddress(e.target))))
                  || (IsReply(env, IndirectQuery, from, e) && Reaches(env, c, i, AccessRules.LocalHost)))
  {
    var c := ClientOf(from);
    var choice := Lookup(w.choices, c, now, w.timeout).0;
    var targets := IndirectTargets(env.db, env.isLocal, c, env.hostname(c), choice);
    assert FirstEntry(env.db, c, env.hostname(c), true) == Some(env.db[i]);
    hide IsReply, Since, Next, Lookup, IndirectTargets, AccessRules.Reachable, FirstEntry;
    IndirectLog(w, env, from, now, e);
    IndirectReachesExactly(env.db, env.isLocal, c, env.hostname(c), AccessRules.LocalHost, i, choice);
    ProducesCall(targets, []);
    if e.Forwarded? {
      IndirectReachesExactly(env.db, env.isLocal, c, env.hostname(c), AccessRules.Call(AccessRules.CalledAddress(e.target)), i, choice);
      ProducesCall(targets, e.target);
    }
  }

  /** The choice is one for a host elsewhere. */
  predicate IsElsewhere(env: Env, c: Client, choice: Option<Bytes>) {
    choice.Some? && !env.isLocal(Client(c.connectionType, choice.value))
  }

  /**
   A choice is followed. After any run the manager lived through, with a clock that never goes back, an
   indirect query whose first entry with hosts is a CHOOSER entry is forwarded to the host its client
   chose last, if that choice is current, the host is not this one and can be sent to, and to
   no other; it is answered here exactly if there is no such choice or it is this host.
   */
  lemma ChoiceIsFollowedExactly(time: nat, timeout: int, steps: seq<Step>, env: Env, from: Netaddr, now: int, i: nat, e: Event)
    requires AllPossible(steps) && Run(Init(time, timeout), steps).dm.alive
    requires Next(Run(Init(time, timeout), steps), QueriedIndirectly(env, from, now)).dm.alive
    requires var h := ChoiceHistory(Run(Init(time, timeout), steps).log);
             ClockNeverGoesBack(h) && forall k :: 0 <= k < |h| ==> h[k].time <= now
    requires IsFirstEntry(env.db, ClientOf(from), env.hostname(ClientOf(from)), true, i)
    requires env.db[i].chooser && !env.db[i].notAllowed
    ensures var w, c := Run(Init(time, timeout), steps), ClientOf(from);
            var log, choice := Next(w, QueriedIndirectly(env, from, now)).log, Current(ChoiceHistory(w.log), c, now, timeout);
            && |w.log| <= |log|
            && (Since(log, |w.log|, e) <==>
                  || e == Consulted(c, now)
                  || (IsForward(env, from, e) && IsElsewhere(env, c, choice) && choice == Some(e.target))
                  || (IsReply(env, IndirectQuery, from, e) && !IsElsewhere(env, c, choice)))
  {
    var w, c := Run(Init(time, timeout), steps), ClientOf(from);
    var choice := Lookup(w.choices, c, now, w.timeout).0;
    assert FirstEntry(env.db, c, env.hostname(c), true) == Some(env.db[i]);
    LookedUpIsCurrent(time, timeout, steps, c, now);
    hide *;
    IndirectLog(w, env, from, now, e);
    ChoiceIsFollowed(env.db, env.isLocal, c, env.hostname(c), choice, i);
    EntryIsChooser(env, c, i);
    ElsewhereMeans(env, c, choice);
  }

  lemma LookedUpIsCurrent(time: nat, timeout: int, steps: seq<Step>, c: Client, now: int)
    requires AllPossible(steps) && Run(Init(time, timeout), steps).dm.alive
    requires var h := ChoiceHistory(Run(Init(time, timeout), steps).log);
             ClockNeverGoesBack(h) && forall k :: 0 <= k < |h| ==> h[k].time <= now
    ensures var w := Run(Init(time, timeout), steps);
            Lookup(w.choices, c, now, w.timeout).0 == Current(ChoiceHistory(w.log), c, now, timeout)
  {
    RunKeepsMemory(Init(time, timeout), steps);
    TimeoutStays(Init(time, timeout), steps);
    hide ListAfter, ClockNeverGoesBack, Current, LastQueryIndirect, Run;
    LookupIsTimestampedMap(ChoiceHistory(Run(Init(time, timeout), steps).log), c, now, timeout);
  }

  lemma EntryIsChooser(env: Env, c: Client, i: nat)
    requires IsFirstEntry(env.db, c, env.hostname(c), true, i) && env.db[i].chooser && !env.db[i].notAllowed
    ensures ChooserEntry(env.db, c, env.hostname(c))
  {
    assert FirstEntry(env.db, c, env.hostname(c), true) == Some(env.db[i]);
  }

  lemma ElsewhereMeans(env: Env, c: Client, choice: Option<Bytes>)
    ensures IsElsewhere(env, c, choice) <==> choice.Some? && !env.isLocal(Client(c.connectionType, choice.value))
    ensures forall e, from :: IsForward(env, from, e) ==> e.Forwarded?
  {
  }

  /** A client no entry with hosts is for, or a negated one first, gets no answer to an indirect query. */
  lemma NoEntryNoAnswer(w: World, env: Env, from: Netaddr, now: int, e: Event)
    requires Next(w, QueriedIndirectly(env, from, now)).dm.alive
    requires forall i :: 0 <= i < |env.db| && IsFirstEntry(env.db, ClientOf(from), env.hostname(ClientOf(from)), true, i) ==>
               env.db[i].notAllowed
    ensures var log := Next(w, QueriedIndirectly(env, from, now)).log;
            |w.log| <= |log| && !Since(log, |w.log|, e)
  {
    var c := ClientOf(from);
    NoEntryNoTargets(env.db, env.isLocal, c, env.hostname(c), Lookup(w.choices, c, now, w.timeout).0);
    NoEntryNoChooser(env.db, c, env.hostname(c));
    hide Since, ChooserEntry, IndirectTargets, Next, IsForward, IsReply, Lookup;
    IndirectLog(w, env, from, now, e);
  }

  lemma NoEntryNoChooser(db: AccessRules.Database, c: Client, hostname: string)
    requires forall i :: 0 <= i < |db| && IsFirstEntry(db, c, hostname, true, i) ==> db[i].notAllowed
    ensures !ChooserEntry(db, c, hostname)
  {
    if FirstEntry(db, c, hostname, true).Some? {
      var i :| 0 <= i < |db| && IsFirstEntry(db, c, hostname, true, i);
    }
  }

  // ---------------------------------------------------------------- answers in every run

  predicate IsAnswer(e: Event) {
    e.Answered? || e.SentWilling? || e.SentUnwilling? || e.Forwarded?
  }

  /** The step is a query this is the answer to. */
  predicate IsAskedBy(step: Step, e: Event) {
    || (step.Queried? && IsReply(step.env, step.kind, step.from, e))
    || (step.QueriedIndirectly? && (IsReply(step.env, IndirectQuery, step.from, e) || IsForward(step.env, step.from, e)))
  }

  /** The log grows, by no answer to anything but this step. */
  predicate AnswersOnly(log: seq<Event>, after: seq<Event>, step: Step) {
    && |log| <= |after| && after[..|log|] == log
    && forall k :: |log| <= k < |after| && IsAnswer(after[k]) ==> IsAskedBy(step, after[k])
  }

  lemma StepAnswersOnly(w: World, step: Step)
    requires Possible(step) && Next(w, step).dm.alive
    ensures AnswersOnly(w.log, Next(w, step).log, step)
  {
    var after := Next(w, step);
    XdmcpSessions.StepLogs(w, step);
    match step
    case Queried(env, kind, from) =>
      forall k | |w.log| <= k < |after.log| ensures IsAskedBy(step, after.log[k]) {
        QueryAnsweredExactly(w, env, kind, from, after.log[k]);
        assert Since(after.log, |w.log|, after.log[k]);
      }
    case QueriedIndirectly(env, from, now) =>
      hide IsReply, IsForward, Next;
      forall k | |w.log| <= k < |after.log| && IsAnswer(after.log[k]) ensures IsAskedBy(step, after.log[k]) {
        IndirectLog(w, env, from, now, after.log[k]);
        assert Since(after.log, |w.log|, after.log[k]);
      }
    case Requested(_, _, _, _) => RequestAnswersNoQuery(w, step);
    case ManageCame(_, _, _, _, _, _, _) => ManageAnswersNoQuery(w, step);
    case _ => hide Displays.Next;
  }

  lemma RequestAnswersNoQuery(w: World, step: Step)
    requires Possible(step) && step.Requested?
    ensures forall k :: |w.log| <= k < |Next(w, step).log| ==> !IsAnswer(Next(w, step).log[k])
  {
    hide Grant, Admissible, Overreads, ConnectionOf, TimeoutProtos, Dispose;
    var i := FindProto(w.protos, step.packet.from, step.packet.number);
    if i < |w.protos| {
      XdmcpSessions.GrantShape(w, step.env, step.packet, step.random, i);
    } else if Admissible(step.env, step.packet) {
      XdmcpSessions.GrantShape(Create(w, step.env, step.packet, step.now), step.env, step.packet, step.random, 0);
    }
  }

  lemma ManageAnswersNoQuery(w: World, step: Step)
    requires step.ManageCame?
    ensures forall k :: |w.log| <= k < |Next(w, step).log| ==> !IsAnswer(Next(w, step).log[k])
  {
    hide ChooserEntry, Lookup, Displays.TakeOver, UsesChooser, IsDuplicate, ChooserOverruns;
  }

  /**
   In every run the manager lives through, an answer was asked for: who was told that the manager is
   willing had asked it, and, unless that was indirectly or there was no access file, an entry
   let it in then.
   */
  lemma {:induction false} AnswersAreChecked(w: World, steps: seq<Step>, i: nat)
    requires AllPossible(steps) && Run(w, steps).dm.alive
    requires |w.log| <= i < |Run(w, steps).log| && IsAnswer(Run(w, steps).log[i])
    ensures exists k :: 0 <= k < |steps| && IsAskedBy(steps[k], Run(w, steps).log[i])
    decreases steps
  {
    hide Next, IsAskedBy;
    if steps == [] {
      assert false;
    } else {
      var mid, e := Next(w, steps[0]), Run(w, steps).log[i];
      if !mid.dm.alive {
        DeadRun(mid, steps[1..]);
      }
      XdmcpSessions.LogOfRunGrows(mid, steps[1..]);
      if i < |mid.log| {
        assert Run(w, steps).log[..|mid.log|][i] == e;
        StepAnswersOnly(w, steps[0]);
      } else {
        AnswersAreChecked(mid, steps[1..], i);
        var k :| 0 <= k < |steps[1..]| && IsAskedBy(steps[1..][k], e);
        assert steps[k + 1] == steps[1..][k];
      }
    }
  }

  // ---------------------------------------------------------------- what becomes of a REQUEST

  predicate IsAcceptanceOf(e: Event, r: RequestPacket) {
    e.Accepted? && e.from == r.from && e.number == r.number
  }

  /** A proto-display stands for the sender's address and number, or its sender may be managed. */
  predicate IsHeard(w: World, env: Env, r: RequestPacket) {
    (exists p :: p in w.protos && p.from == r.from && p.number == r.number) || XdmcpSessions.MayBeManaged(env, r)
  }

  /**
   A REQUEST that is survived is answered exactly once: accepted if it is for a proto-display there is or
   its sender may be managed, and its names, keys and data are right; declined if not.
   */
  lemma RequestAnsweredExactly(w: World, env: Env, r: RequestPacket, now: int, random: Option<Bytes>)
    requires w.dm.alive && (random.Some? ==> |random.value| >= 16)
    requires Next(w, Requested(env, r, now, random)).dm.alive
    ensures var log := Next(w, Requested(env, r, now, random)).log;
            && |w.log| < |log| && log[..|w.log|] == w.log
            && (forall k :: |w.log| <= k < |log| - 1 ==> log[k].Created?)
            && if IsHeard(w, env, r) && Grantable(env, r) then IsAcceptanceOf(log[|log| - 1], r) else log[|log| - 1] == Declined(r.from)
  {
    var i := FindProto(w.protos, r.from, r.number);
    HeardExactly(w, env, r);
    XdmcpSessions.AdmissibleExactly(env, r);
    hide Grant, Grantable, Admissible, Overreads, ConnectionOf, TimeoutProtos, FindProto, IsHeard, XdmcpSessions.MayBeManaged;
    if i < |w.protos| {
      GrantAnswers(w, env, r, random, i);
    } else if Admissible(env, r) {
      GrantAnswers(Create(w, env, r, now), env, r, random, 0);
    }
  }

  lemma HeardExactly(w: World, env: Env, r: RequestPacket)
    ensures IsHeard(w, env, r) <==> FindProto(w.protos, r.from, r.number) < |w.protos| || XdmcpSessions.MayBeManaged(env, r)
  {
    hide XdmcpSessions.MayBeManaged;
    var i := FindProto(w.protos, r.from, r.number);
    assert i < |w.protos| ==> w.protos[i] in w.protos;
  }

  lemma GrantAnswers(w: World, env: Env, r: RequestPacket, random: Option<Bytes>, i: nat)
    requires i < |w.protos| && (random.Some? ==> |random.value| >= 16) && Grant(w, env, r, random, i).dm.alive
    ensures var log := Grant(w, env, r, random, i).log;
            && |log| == |w.log| + 1 && log[..|w.log|] == w.log
            && if Grantable(env, r) then IsAcceptanceOf(log[|w.log|], r) else log[|w.log|] == Declined(r.from)
  {
    GrantedExactly(w.protos[i].credentials, env, r, random);
    hide Authorize, Grantable, NeedsEarlierRho;
  }

  /** A proto-display that a REQUEST makes is for its sender and number, as of now, and keeps the connection chosen. */
  lemma ProtoExactly(w: World, env: Env, r: RequestPacket, now: int, random: Option<Bytes>)
    requires w.dm.alive && (random.Some? ==> |random.value| >= 16) && XdmcpSessions.MayBeManaged(env, r) && Grantable(env, r)
    requires forall p :: !IsPending(w, r.from, r.number, p)
    requires Next(w, Requested(env, r, now, random)).dm.alive && 0 <= now < ULONG_LIMIT && w.globalSessionID + 1 < CARD32_LIMIT
    ensures var after := Next(w, Requested(env, r, now, random));
            && after.globalSessionID == w.globalSessionID + 1 && ConnectionOf(env, r).Selected?
            && after.protos != [] && after.protos[1..] == TimeoutProtos(w.protos, now)
            && var p := after.protos[0];
               && p.from == r.from && p.number == r.number && p.date == now && p.sessionID == after.globalSessionID
               && p.connection == ConnectionOf(env, r).connection
  {
    hide Authorize, Grantable, XdmcpSessions.MayBeManaged, ConnectionOf, Welcome, TimeoutProtos, FindProto, Overreads, NeedsEarlierRho;
    var i := FindProto(w.protos, r.from, r.number);
    assert i < |w.protos| ==> IsPending(w, r.from, r.number, w.protos[i]);
    XdmcpSessions.AdmissibleExactly(env, r);
    GrantedExactly(NO_CREDENTIALS, env, r, random);
  }

  /** Those too old go, the others stay, in order. */
  lemma {:induction false} TimeoutExactly(ps: seq<Proto>, now: int, p: Proto)
    ensures p in TimeoutProtos(ps, now) <==> p in ps && !Expired(p.date, now)
  {
    if ps != [] {
      assert p in ps <==> p == ps[0] || p in ps[1..];
      TimeoutExactly(ps[1..], now, p);
    }
  }

  /** The offer at `k` comes with an address, and is an internet, IPv6 or local connection. */
  predicate CanUse(r: RequestPacket, k: nat) {
    k < |r.connectionTypes| && k < |r.connectionAddresses| && r.connectionTypes[k] in {0, 6, 256}
  }

  function OfferAt(r: RequestPacket, k: nat): Client
    requires CanUse(r, k)
  {
    Client(r.connectionTypes[k], r.connectionAddresses[k])
  }

  /** The sender's own address if it is among the offers, or else the first usable offer, or else a sender on this host. */
  lemma ConnectionExactly(env: Env, r: RequestPacket)
    requires ConnectionOf(env, r).Selected?
    ensures var sender, connection := ClientOf(r.from), ConnectionOf(env, r).connection;
            if exists k :: 0 <= k < |r.connectionTypes| && CanUse(r, k) && OfferAt(r, k) == sender then connection == sender
            else if exists k :: 0 <= k < |r.connectionTypes| && CanUse(r, k) then
              exists k :: 0 <= k < |r.connectionTypes| && CanUse(r, k) && connection == OfferAt(r, k)
                          && forall j :: 0 <= j < k ==> !CanUse(r, j)
            else connection == sender && env.isLocal(sender)
  {
    var sender, offers := ClientOf(r.from), Connections(r.connectionTypes, r.connectionAddresses);
    forall k: nat ensures CanUse(r, k) <==> k < |offers| && Usable(offers[k]) {
    }
    forall k: nat ensures CanUse(r, k) ==> OfferAt(r, k) == offers[k] {
    }
    FirstUsableExactly(offers);
    hide FirstUsable, CanUse, OfferAt;
    if sender in offers && Usable(sender) {
      var k :| 0 <= k < |offers| && offers[k] == sender;
      assert CanUse(r, k) && OfferAt(r, k) == sender;
    } else {
      forall k | 0 <= k < |r.connectionTypes| && CanUse(r, k) ensures OfferAt(r, k) != sender {
        assert offers[k] in offers;
      }
      if FirstUsable(offers).Some? {
        var k :| 0 <= k < |offers| && FirstUsable(offers) == Some(offers[k]) && Usable(offers[k])
                 && forall j :: 0 <= j < k ==> !Usable(offers[j]);
        assert CanUse(r, k) && forall j :: 0 <= j < k ==> !CanUse(r, j);
      }
    }
  }

  lemma {:induction false} FirstUsableExactly(offers: seq<Client>)
    ensures FirstUsable(offers).Some? <==> exists k :: 0 <= k < |offers| && Usable(offers[k])
    ensures FirstUsable(offers).Some? ==>
              exists k :: 0 <= k < |offers| && FirstUsable(offers) == Some(offers[k]) && Usable(offers[k])
                          && forall j :: 0 <= j < k ==> !Usable(offers[j])
  {
    if offers != [] {
      FirstUsableExactly(offers[1..]);
      assert forall k :: 0 < k < |offers| ==> offers[k] == offers[1..][k - 1];
      if !Usable(offers[0]) && FirstUsable(offers[1..]).Some? {
        var k :| 0 <= k < |offers[1..]| && FirstUsable(offers[1..]) == Some(offers[1..][k]) && Usable(offers[1..][k])
                 && forall j :: 0 <= j < k ==> !Usable(offers[1..][j]);
        assert offers[k + 1] == offers[1..][k];
        assert forall j :: 0 < j < k + 1 ==> offers[j] == offers[1..][j - 1];
      }
    }
  }

  predicate IsKnownAt(names: seq<Bytes>, k: nat) {
    k < |names| && (names[k] == MIT_MAGIC_COOKIE || names[k] == XDM_AUTHORIZATION)
  }

  /** The authorization that goes with the authentication if it is asked for, or else the first known name. */
  lemma AuthorizationExactly(authentication: Bytes, names: seq<Bytes>)
    ensures var r := SelectAuthorization(authentication, names);
            if authentication == XDM_AUTHENTICATION && XDM_AUTHORIZATION in names then r == Some(XDM_AUTHORIZATION)
            else if authentication == [] && [] in names then r == Some([])
            else if exists k :: 0 <= k < |names| && IsKnownAt(names, k) then
              exists k :: 0 <= k < |names| && IsKnownAt(names, k) && r == Some(names[k])
                          && forall j :: 0 <= j < k ==> !IsKnownAt(names, j)
            else r == None
  {
    FirstKnownExactly(names);
    hide FirstKnown, IsKnownAt;
  }

  lemma {:induction false} FirstKnownExactly(names: seq<Bytes>)
    ensures FirstKnown(names).Some? <==> exists k :: 0 <= k < |names| && IsKnownAt(names, k)
    ensures FirstKnown(names).Some? ==>
              exists k :: 0 <= k < |names| && IsKnownAt(names, k) && FirstKnown(names) == Some(names[k])
                          && forall j :: 0 <= j < k ==> !IsKnownAt(names, j)
  {
    if names != [] {
      var rest := names[1..];
      FirstKnownExactly(rest);
      assert IsKnown(names[0]) <==> IsKnownAt(names, 0);
      forall k | 0 < k < |names| ensures IsKnownAt(names, k) <==> IsKnownAt(rest, k - 1) {
      }
      hide IsKnown, IsKnownAt;
      if !IsKnownAt(names, 0) {
        if k :| 0 <= k < |names| && IsKnownAt(names, k) {
          assert IsKnownAt(rest, k - 1);
        }
        if FirstKnown(rest).Some? {
          var k :| 0 <= k < |rest| && IsKnownAt(rest, k) && FirstKnown(rest) == Some(rest[k])
                   && forall j :: 0 <= j < k ==> !IsKnownAt(rest, j);
          assert IsKnownAt(names, k + 1);
          forall j | 0 <= j < k + 1 ensures !IsKnownAt(names, j) {
            assert j > 0 ==> !IsKnownAt(rest, j - 1);
          }
        }
      }
    }
  }

  // ---------------------------------------------------------------- what becomes of a MANAGE

  predicate IsPending(w: World, from: Netaddr, number: nat, p: Proto) {
    p in w.protos && p.from == from && p.number == number
  }

  predicate IsFrom(d: Displays.Display, from: Netaddr, number: nat) {
    d.displayType.origin == Displays.FromXdmcp && d.link.from == from && d.link.number == number
  }

  /** The first display managed for a sender and number. */
  predicate IsFirstFrom(ds: seq<Displays.Display>, from: Netaddr, number: nat, k: nat) {
    k < |ds| && IsFrom(ds[k], from, number) && forall j :: 0 <= j < k ==> !IsFrom(ds[j], from, number)
  }

  /** The first display managed for this sender and number has this id. */
  predicate IsManaged(w: World, from: Netaddr, number: nat, id: nat) {
    exists k :: 0 <= k < |w.dm.displays| && IsFirstFrom(w.dm.displays, from, number, k) && w.dm.displays[k].link.sessionID == id
  }

  /** No class for an empty one; else the class up to its first NUL. */
  predicate IsClassOf(displayClass: string, cls: Option<string>) {
    if displayClass == [] then cls == None
    else
      && cls.Some? && cls.value <= displayClass && '\0' !in cls.value
      && (|cls.value| < |displayClass| ==> displayClass[|cls.value|] == '\0')
  }

  lemma {:induction false} ClassExactly(displayClass: string)
    ensures displayClass != [] ==> IsClassOf(displayClass, Some(UpToNulChar(displayClass)))
    ensures IsClassOf(displayClass, ClassOf(displayClass))
  {
    if |displayClass| > 1 {
      ClassExactly(displayClass[1..]);
      var cls := UpToNulChar(displayClass[1..]);
      assert displayClass[0] != '\0' ==> UpToNulChar(displayClass) == [displayClass[0]] + cls;
    }
  }

  /** The display made of a proto-display: its id, address, number and authorization, with the packet's class. */
  predicate IsMadeOf(d: Displays.Display, p: Proto, name: string, displayClass: string, started: Event, session: Option<Displays.Pid>) {
    && started.Started? && started == Started(p.sessionID, p.from, p.number, started.useChooser, p.credentials.fileAuth)
    && IsClassOf(displayClass, d.cls)
    && Lifecycle.IsMadeBy(d, name, d.cls,
         Displays.Link(p.sessionID, p.from, p.number, started.useChooser, p.credentials.fileAuth), session)
  }

  /**
   A MANAGE that is survived. With the id of the proto-display for its address and number it makes a display
   of that and uses it up, or fails if the display has no name. With another id, or where there is none, it is refused;
   only where there is none, and the display managed has that id, it is ignored.
   */
  lemma ManageAnsweredExactly(w: World, env: Env, from: Netaddr, number: nat, id: nat, displayClass: string, now: int,
                              o: Displays.Outcome)
    requires w.dm.alive && XdmcpSessions.Sessions(w) && Lifecycle.Inv(w.dm)
    requires Next(w, ManageCame(env, from, number, id, displayClass, now, o)).dm.alive
    ensures var after := Next(w, ManageCame(env, from, number, id, displayClass, now, o));
            && (forall p :: IsPending(w, from, number, p) ==>
                  if p.sessionID != id then after == w.(log := w.log + [Refused(from, id)])
                  else if env.displayName(p.connection, from, number) == None then after == w.(log := w.log + [SentFailed(from, id)])
                  else
                    var session := if o.session.Some? && o.session.value !in w.dm.children then o.session else None;
                    && after.log != [] && after.dm.displays != [] && p !in after.protos
                    && IsMadeOf(after.dm.displays[0], p, env.displayName(p.connection, from, number).value, displayClass,
                                after.log[|after.log| - 1], session))
            && ((forall p :: !IsPending(w, from, number, p)) ==>
                  after == if IsManaged(w, from, number, id) then w else w.(log := w.log + [Refused(from, id)]))
  {
    hide XdmcpSessions.Sessions, Lifecycle.Inv, IsPending, IsManaged, IsDuplicate, FindProto, IsMadeOf, StartSession,
      ChooserOverruns;
    XdmcpSessions.SessionFacts(w);
    PendingIsFound(w, from, number);
    var i := FindProto(w.protos, from, number);
    assert i < |w.protos| ==> IsPending(w, from, number, w.protos[i]);
    ManagedExactly(w, from, number, id);
    if Starts(w, env, from, number, id) {
      MadeOf(w, env, from, number, id, displayClass, now, o);
    }
  }

  lemma PendingIsFound(w: World, from: Netaddr, number: nat)
    requires XdmcpSessions.DistinctProtos(w.protos)
    ensures var i := FindProto(w.protos, from, number);
            forall p :: IsPending(w, from, number, p) <==> i < |w.protos| && p == w.protos[i]
  {
    var i := FindProto(w.protos, from, number);
    forall p ensures IsPending(w, from, number, p) <==> i < |w.protos| && p == w.protos[i] {
      if p in w.protos && p.from == from && p.number == number {
        var k :| 0 <= k < |w.protos| && w.protos[k] == p;
        SlotIsUnique(w.protos, i, k);
      }
    }
  }

  lemma ManagedExactly(w: World, from: Netaddr, number: nat, id: nat)
    ensures FindProto(w.protos, from, number) == |w.protos| ==> (IsDuplicate(w, from, number, id) <==> IsManaged(w, from, number, id))
    ensures FindProto(w.protos, from, number) < |w.protos| ==> !IsDuplicate(w, from, number, id)
  {
    var ds, k := w.dm.displays, FindByAddress(w.dm.displays, from, number);
    assert forall d :: IsAt(d, from, number) <==> IsFrom(d, from, number);
    hide IsAt, IsFrom;
    if IsManaged(w, from, number, id) {
      var l :| 0 <= l < |ds| && IsFirstFrom(ds, from, number, l) && ds[l].link.sessionID == id;
      assert k == l;
    }
    if IsDuplicate(w, from, number, id) {
      assert IsFirstFrom(ds, from, number, k);
    }
  }

  lemma MadeOf(w: World, env: Env, from: Netaddr, number: nat, id: nat, displayClass: string, now: int, o: Displays.Outcome)
    requires Starts(w, env, from, number, id) && XdmcpSessions.DistinctProtos(w.protos) && Lifecycle.Inv(w.dm)
    ensures var after, p := StartSession(w, env, from, number, id, displayClass, now, o), w.protos[FindProto(w.protos, from, number)];
            var session := if o.session.Some? && o.session.value !in w.dm.children then o.session else None;
            && after.log != [] && after.dm.displays != [] && p !in after.protos
            && IsMadeOf(after.dm.displays[0], p, env.displayName(p.connection, from, number).value, displayClass,
                        after.log[|after.log| - 1], session)
  {
    hide Displays.TakeOver, UsesChooser, Consult, Lifecycle.Inv, XdmcpSessions.DistinctProtos, Lifecycle.IsMadeBy, IsClassOf, ClassOf;
    var i := FindProto(w.protos, from, number);
    var p := w.protos[i];
    var name := env.displayName(p.connection, from, number).value;
    var link := Displays.Link(id, from, number, UsesChooser(w, env, ClientOf(from), now), p.credentials.fileAuth);
    XdmcpSessions.StartShape(w, env, from, number, id, displayClass, now, o, name, link);
    Lifecycle.TakeOverExactly(w.dm, name, ClassOf(displayClass), link, env.resources, o);
    ClassExactly(displayClass);
    MadeHasClass(StartSession(w, env, from, number, id, displayClass, now, o).dm.displays[0], name, ClassOf(displayClass), link,
                 if o.session.Some? && o.session.value !in w.dm.children then o.session else None);
    DisposedIsGone(w.protos, i);
  }

  lemma MadeHasClass(d: Displays.Display, name: string, cls: Option<string>, link: Displays.Link, session: Option<Displays.Pid>)
    requires Lifecycle.IsMadeBy(d, name, cls, link, session)
    ensures d.cls == cls
  {
  }

  lemma DisposedIsGone(ps: seq<Proto>, i: nat)
    requires i < |ps| && XdmcpSessions.DistinctProtos(ps)
    ensures ps[i] !in Dispose(ps, i)
  {
    XdmcpSessions.DisposeFewer(ps, i);
    hide XdmcpSessions.DistinctProtos;
  }

  // ---------------------------------------------------------------- what a KEEPALIVE is told

  /**
   A KEEPALIVE is answered with the id of the display that has it, or else of the one managed for its sender and
   number, if that display is running, and with none if not; only in the first case it is told that it runs.
   */
  lemma KeepAliveAnsweredExactly(w: World, from: Netaddr, number: nat, id: nat)
    requires w.dm.alive && XdmcpSessions.UniqueIds(w.dm.displays) && id != 0
    ensures var ds, after := w.dm.displays, Next(w, KeepAliveCame(from, number, id));
            && after == w.(log := after.log) && |after.log| == |w.log| + 1 && after.log[..|w.log|] == w.log
            && var e := after.log[|w.log|];
               && e.Alive? && e.to == from
               && (forall k :: 0 <= k < |ds| && ds[k].link.sessionID == id ==>
                     e.running == (ds[k].status == Displays.Running) && e.id == if e.running then id else 0)
               && ((forall k :: 0 <= k < |ds| ==> ds[k].link.sessionID != id) ==>
                     && !e.running
                     && (forall k: nat :: IsFirstFrom(ds, from, number, k) ==>
                           e.id == if ds[k].status == Displays.Running then ds[k].link.sessionID else 0)
                     && ((forall k :: 0 <= k < |ds| ==> !IsFrom(ds[k], from, number)) ==> e.id == 0))
  {
    var ds := w.dm.displays;
    assert forall d :: IsAt(d, from, number) <==> IsFrom(d, from, number);
    hide IsAt, IsFrom;
    var k, d := FindBySessionID(ds, id), FindByAddress(ds, from, number);
    forall j | 0 <= j < |ds| && ds[j].link.sessionID == id ensures j == k {
    }
    forall j: nat | IsFirstFrom(ds, from, number, j) ensures j == d {
    }
    hide FindBySessionID, FindByAddress, XdmcpSessions.UniqueIds;
  }
}
