/**
 What the history of packets says about the manager's state: who gets the chooser, which
 authorization a session gets, and that packets that come twice do no harm.
 */
module XdmcpHistory {
  import opened Options
  import opened Network
  import opened Choices
  import AccessRules
  import opened AccessQueries
  import opened XdmAuth
  import Displays
  import Lifecycle
  import opened Xdmcp
  import XdmcpSessions

  // ---------------------------------------------------------------- who gets the chooser

  /** The client's latest locally answered query since its last session was started was indirect. */
  function LastQueryIndirect(log: seq<Event>, c: Client): bool {
    if log == [] then false else AfterEvent(log[|log| - 1], c, LastQueryIndirect(log[..|log| - 1], c))
  }

  /** The log's registrations and lookups of chooser choices. */
  function ChoiceHistory(log: seq<Event>): seq<ListEvent> {
    if log == [] then []
    else
      var before := ChoiceHistory(log[..|log| - 1]);
      match log[|log| - 1]
      case Chosen(c, choice, t) => before + [Registered(c, choice, t)]
      case Consulted(c, t) => before + [Asked(c, t)]
      case _ => before
  }

  ghost predicate Remembers(w: World) {
    && NoDuplicates(w.indirect)
    && (forall c :: c in w.indirect <==> LastQueryIndirect(w.log, c))
    && w.choices == ListAfter(ChoiceHistory(w.log), w.timeout)
  }

  predicate AfterEvent(e: Event, c: Client, before: bool) {
    if e.Answered? && e.client == c then e.indirect
    else if e.Started? && ClientOf(e.from) == c then false
    else before
  }

  lemma HistoryOfOne(log: seq<Event>, e: Event)
    ensures ChoiceHistory(log + [e])
         == ChoiceHistory(log) + if e.Chosen? then [Registered(e.client, e.choice, e.time)] else if e.Consulted? then [Asked(e.client, e.time)] else []
    ensures forall c :: LastQueryIndirect(log + [e], c) == AfterEvent(e, c, LastQueryIndirect(log, c))
  {
    assert (log + [e])[..|log|] == log;
  }

  /** Events that are about neither queries answered here, nor sessions, nor choices. */
  predicate IsOther(e: Event) {
    !e.Answered? && !e.Started? && !e.Chosen? && !e.Consulted?
  }

  lemma {:induction false} OthersDoNotMatter(log: seq<Event>, more: seq<Event>)
    requires forall i :: 0 <= i < |more| ==> IsOther(more[i])
    ensures ChoiceHistory(log + more) == ChoiceHistory(log)
    ensures forall c :: LastQueryIndirect(log + more, c) == LastQueryIndirect(log, c)
  {
    if more == [] {
      assert log + more == log;
    } else {
      var n := |more| - 1;
      OthersDoNotMatter(log, more[..n]);
      HistoryOfOne(log + more[..n], more[n]);
      assert log + more == log + more[..n] + [more[n]];
    }
  }

  lemma OthersKeep(w: World, after: World, more: seq<Event>)
    requires Remembers(w) && after.log == w.log + more && forall i :: 0 <= i < |more| ==> IsOther(more[i])
    requires after.indirect == w.indirect && after.choices == w.choices && after.timeout == w.timeout
    ensures Remembers(after)
  {
    OthersDoNotMatter(w.log, more);
  }

  lemma ListAfterOne(h: seq<ListEvent>, e: ListEvent, timeout: int)
    ensures ListAfter(h + [e], timeout)
         == if e.Asked? then Lookup(ListAfter(h, timeout), e.client, e.time, timeout).1
            else Register(ListAfter(h, timeout), e.client, e.choice, e.time)
  {
    assert (h + [e])[..|h|] == h;
  }

  lemma ConsultedKeeps(w: World, after: World, c: Client, now: int)
    requires Remembers(w) && after.indirect == w.indirect && after.timeout == w.timeout
    requires after.log == w.log + [Consulted(c, now)]
    requires after.choices == Lookup(w.choices, c, now, w.timeout).1
    ensures Remembers(after)
  {
    hide Lookup, ListAfter, ChoiceHistory, LastQueryIndirect;
    HistoryOfOne(w.log, Consulted(c, now));
    ListAfterOne(ChoiceHistory(w.log), Asked(c, now), w.timeout);
  }

  lemma ConsultKeeps(w: World, env: Env, c: Client, now: int)
    requires Remembers(w)
    ensures Remembers(Consult(w, env, c, now))
  {
    if ChooserEntry(env.db, c, env.hostname(c)) {
      hide Remembers, ChooserEntry, Lookup;
      ConsultedKeeps(w, Consult(w, env, c, now), c, now);
    }
  }

  lemma ChosenKeeps(w: World, c: Client, choice: Bytes, now: int)
    requires Remembers(w)
    ensures Remembers(w.(choices := Register(w.choices, c, choice, now), log := w.log + [Chosen(c, choice, now)]))
  {
    hide Register, ListAfter, ChoiceHistory, LastQueryIndirect;
    HistoryOfOne(w.log, Chosen(c, choice, now));
    ListAfterOne(ChoiceHistory(w.log), Registered(c, choice, now), w.timeout);
  }

  lemma RespondKeeps(w: World, env: Env, kind: QueryKind, from: Netaddr)
    requires Remembers(w)
    ensures Remembers(Respond(w, env, kind, from))
  {
    hide Acceptable, AcceptOverruns, ListAfter;
    var c, after := ClientOf(from), Respond(w, env, kind, from);
    if Family(from) >= 0 {
      var e := Answered(c, kind == IndirectQuery);
      HistoryOfOne(w.log, e);
      DropRemovesExactly(w.indirect, c);
      var mid := w.(indirect := after.indirect, log := w.log + [e]);
      assert Remembers(mid);
      var more := after.log[|w.log| + 1..];
      assert after.log == mid.log + more;
      OthersKeep(mid, after, more);
    }
  }

  lemma RespondIndirectKeeps(w: World, env: Env, from: Netaddr, now: int)
    requires Remembers(w)
    ensures Remembers(RespondIndirect(w, env, from, now))
  {
    hide Acceptable, ChooserEntry, IndirectTargets, IndirectOverruns, ListAfter, Consult, Respond, Remembers;
    var c := ClientOf(from);
    if IndirectOverruns(env.db, c, env.hostname(c)) {
      assert w.log + [] == w.log;
      OthersKeep(w, Die(w), []);
      return;
    }
    var targets := IndirectTargets(env.db, env.isLocal, c, env.hostname(c), Lookup(w.choices, c, now, w.timeout).0);
    var asked := Consult(w, env, c, now);
    ConsultKeeps(w, env, c, now);
    var sent := asked.(log := asked.log + Forwards(env, from, targets.calls));
    OthersKeep(asked, sent, Forwards(env, from, targets.calls));
    RespondKeeps(sent, env, IndirectQuery, from);
  }

  lemma StartKeeps(w: World, env: Env, from: Netaddr, number: nat, id: nat, displayClass: string, now: int,
          o: Displays.Outcome)
    requires Remembers(w) && Starts(w, env, from, number, id)
    ensures Remembers(StartSession(w, env, from, number, id, displayClass, now, o))
  {
    hide ChooserEntry, Displays.TakeOver, ListAfter, Lookup, Consult;
    var c, after := ClientOf(from), StartSession(w, env, from, number, id, displayClass, now, o);
    ConsultKeeps(w, env, c, now);
    var asked := if c in w.indirect then Consult(w, env, c, now) else w;
    var e := after.log[|asked.log|];
    assert after.log == asked.log + [e] && e.Started? && e.from == from;
    ConsultSame(w, env, c, now);
    HistoryOfOne(asked.log, e);
    DropRemovesExactly(w.indirect, c);
  }

  lemma ConsultSame(w: World, env: Env, c: Client, now: int)
    ensures Consult(w, env, c, now).indirect == w.indirect && Consult(w, env, c, now).timeout == w.timeout
  {
  }

  lemma StepKeepsMemory(w: World, step: Step)
    requires Possible(step) && Remembers(w)
    ensures Next(w, step).dm.alive ==> Remembers(Next(w, step))
  {
    var after := Next(w, step);
    if !after.dm.alive {
      return;
    }
    match step {
      case Queried(env, kind, from) => RespondKeeps(w, env, kind, from);
      case QueriedIndirectly(env, from, now) => RespondIndirectKeeps(w, env, from, now);
      case Requested(env, packet, now, random) =>
        RequestShape(w, env, packet, now, random);
        hide Request;
        OthersKeep(w, after, after.log[|w.log|..]);
      case ManageCame(env, from, number, id, displayClass, now, o) =>
        hide StartSession, IsDuplicate, Displays.TakeOver;
        if Starts(w, env, from, number, id) {
          StartKeeps(w, env, from, number, id, displayClass, now, o);
        } else {
          OthersKeep(w, after, after.log[|w.log|..]);
        }
      case KeepAliveCame(from, number, id) => OthersKeep(w, after, [after.log[|w.log|]]);
      case ChooserReplied(c, choice, now) => ChosenKeeps(w, c, choice, now);
      case Ran(s) =>
        hide Displays.Next;
        OthersKeep(w, after, []);
    }
  }

  lemma RequestShape(w: World, env: Env, r: RequestPacket, now: int, random: Option<Bytes>)
    requires random.Some? ==> |random.value| >= 16
    ensures var after := Request(w, env, r, now, random);
            && after.indirect == w.indirect && after.choices == w.choices && after.timeout == w.timeout
            && after.dm == w.dm.(alive := after.dm.alive) && (after.dm.alive ==> w.dm.alive)
            && |w.log| <= |after.log| && after.log == w.log + after.log[|w.log|..]
            && forall i :: |w.log| <= i < |after.log| ==> IsOther(after.log[i])
  {
    hide Admissible, Overreads, ConnectionOf, Grant;
    var i := FindProto(w.protos, r.from, r.number);
    if i < |w.protos| {
      GrantAddsOthers(w, env, r, random, i);
    } else if Admissible(env, r) {
      var made := Create(w, env, r, now);
      GrantAddsOthers(made, env, r, random, 0);
    }
  }

  lemma GrantAddsOthers(w: World, env: Env, r: RequestPacket, random: Option<Bytes>, i: nat)
    requires i < |w.protos| && (random.Some? ==> |random.value| >= 16)
    ensures var after := Grant(w, env, r, random, i);
            && after.indirect == w.indirect && after.choices == w.choices && after.timeout == w.timeout
            && after.dm == w.dm.(alive := after.dm.alive) && (after.dm.alive ==> w.dm.alive)
            && (after.log == w.log || (|after.log| == |w.log| + 1 && after.log == w.log + [after.log[|w.log|]]
                                       && IsOther(after.log[|w.log|])))
  {
    hide Authorize;
  }

  lemma {:induction false} DeadRun(w: World, steps: seq<Step>)
    requires AllPossible(steps) && !w.dm.alive
    ensures Run(w, steps) == w
    decreases steps
  {
    if steps != [] {
      DeadRun(w, steps[1..]);
    }
  }

  lemma {:induction false} RunKeepsMemory(w: World, steps: seq<Step>)
    requires AllPossible(steps) && Remembers(w) && Run(w, steps).dm.alive
    ensures Remembers(Run(w, steps))
    decreases steps
  {
    if steps != [] {
      var mid := Next(w, steps[0]);
      StepKeepsMemory(w, steps[0]);
      if mid.dm.alive {
        RunKeepsMemory(mid, steps[1..]);
      } else {
        DeadRun(mid, steps[1..]);
      }
    }
  }

  /**
   At every MANAGE that starts a session, after any run the manager lived through, with a clock that
   never goes back, the chooser flag is set exactly when the client's latest locally answered query since its previous
   session was indirect, its first entry with hosts is an allowed CHOOSER entry, and it has made no
   choice that is still current.
   */
  lemma ChooserFlagExactly(time: nat, timeout: int, steps: seq<Step>,
                           env: Env, from: Netaddr, number: nat, id: nat, displayClass: string, now: int,
                           o: Displays.Outcome)
    requires AllPossible(steps) && Run(Init(time, timeout), steps).dm.alive
    requires Starts(Run(Init(time, timeout), steps), env, from, number, id)
    requires var h := ChoiceHistory(Run(Init(time, timeout), steps).log);
             ClockNeverGoesBack(h) && forall i :: 0 <= i < |h| ==> h[i].time <= now
    ensures var w, c := Run(Init(time, timeout), steps), ClientOf(from);
            var log := StartSession(w, env, from, number, id, displayClass, now, o).log;
            && log != [] && IsStartOf(log[|log| - 1], from, number, id)
            && (log[|log| - 1].useChooser <==>
                  && LastQueryIndirect(w.log, c) && ChooserEntry(env.db, c, env.hostname(c))
                  && Current(ChoiceHistory(w.log), c, now, timeout) == None)
  {
    RunKeepsMemory(Init(time, timeout), steps);
    TimeoutStays(Init(time, timeout), steps);
    hide ChooserEntry, Displays.TakeOver, ListAfter, ClockNeverGoesBack, Current, LastQueryIndirect, Run;
    LookupIsTimestampedMap(ChoiceHistory(Run(Init(time, timeout), steps).log), ClientOf(from), now, timeout);
  }

  predicate IsStartOf(e: Event, from: Netaddr, number: nat, id: nat) {
    e.Started? && e.id == id && e.from == from && e.number == number
  }

  lemma {:induction false} TimeoutStays(w: World, steps: seq<Step>)
    requires AllPossible(steps)
    ensures Run(w, steps).timeout == w.timeout
    decreases steps
  {
    if steps != [] {
      StepKeepsTimeout(w, steps[0]);
      TimeoutStays(Next(w, steps[0]), steps[1..]);
    }
  }

  lemma StepKeepsTimeout(w: World, step: Step)
    requires Possible(step)
    ensures Next(w, step).timeout == w.timeout
  {
    hide Acceptable, ChooserEntry, IndirectTargets, Displays.Next, Displays.TakeOver, Admissible, Welcome, ConnectionOf,
      Authorize;
  }

  // ---------------------------------------------------------------- duplicate packets

  lemma {:induction false} NoneLeft(ps: seq<Proto>, p: Proto)
    requires forall k :: 0 <= k < |ps| ==> XdmcpSessions.Differ(ps[k], p)
    ensures FindProto(ps, p.from, p.number) == |ps|
  {
    if ps != [] {
      NoneLeft(ps[1..], p);
    }
  }

  lemma StartedOnceMore(w: World, env: Env, again: Env, from: Netaddr, number: nat, id: nat, displayClass: string,
          now: int, later: int, o: Displays.Outcome, p: Displays.Outcome)
    requires XdmcpSessions.DistinctProtos(w.protos) && Starts(w, env, from, number, id)
    ensures var once := Manage(w, env, from, number, id, displayClass, now, o);
            Manage(once, again, from, number, id, displayClass, later, p) == once
  {
    hide ChooserEntry, Lookup;
    var once, i := Manage(w, env, from, number, id, displayClass, now, o), FindProto(w.protos, from, number);
    XdmcpSessions.DisposeFewer(w.protos, i);
    NoneLeft(once.protos, w.protos[i]);
    assert FindByAddress(once.dm.displays, from, number) == 0;
  }

  /**
   After any run the manager lived through, a MANAGE that comes twice: the second changes nothing and
   sends nothing exactly when the first finds its proto-display and a name for it, or is a duplicate
   itself: there is no proto-display for its address and number, but a display with its session id.
   */
  lemma ManageTwice(time: nat, timeout: int, steps: seq<Step>, env: Env, again: Env, from: Netaddr, number: nat, id: nat,
                    displayClass: string, now: int, later: int, o: Displays.Outcome, p: Displays.Outcome)
    requires AllPossible(steps) && Run(Init(time, timeout), steps).dm.alive
    requires Run(Init(time, timeout), steps).globalSessionID - InitSessionID(time) <= XdmcpSessions.IDS_BEFORE_WRAP
    ensures var w := Run(Init(time, timeout), steps);
            var once := Next(w, ManageCame(env, from, number, id, displayClass, now, o));
            Next(once, ManageCame(again, from, number, id, displayClass, later, p)) == once <==>
              IsNamed(w, env, from, number, id) || IsDuplicate(w, from, number, id)
  {
    XdmcpSessions.SessionIdsAreSound(time, timeout, steps);
    var w := Run(Init(time, timeout), steps);
    hide Run, StartSession, IsNamed, ChooserOverruns;
    var once := Next(w, ManageCame(env, from, number, id, displayClass, now, o));
    if Starts(w, env, from, number, id) {
      StartedOnceMore(w, env, again, from, number, id, displayClass, now, later, o, p);
    } else if !IsNamed(w, env, from, number, id) {
      NotStartedTwice(w, once, again, from, number, id, displayClass, later, p);
    }
  }

  lemma NotStartedTwice(w: World, once: World, again: Env, from: Netaddr, number: nat, id: nat, displayClass: string,
          later: int, p: Displays.Outcome)
    requires w.dm.alive
    requires var i := FindProto(w.protos, from, number);
             if i < |w.protos| && w.protos[i].sessionID == id then once == w.(log := w.log + [SentFailed(from, id)])
             else if IsDuplicate(w, from, number, id) then once == w
             else once == w.(log := w.log + [Refused(from, id)])
    ensures Next(once, ManageCame(again, from, number, id, displayClass, later, p)) == once <==> IsDuplicate(w, from, number, id)
  {
    hide ChooserEntry, Lookup, Displays.TakeOver, UsesChooser;
    var twice := Next(once, ManageCame(again, from, number, id, displayClass, later, p));
    assert twice == once || |twice.log| > |once.log| || !twice.dm.alive;
    assert IsDuplicate(w, from, number, id) ==> FindProto(w.protos, from, number) == |w.protos|;
  }

  /**
   Whether a request is turned down depends on the packet and the keys, not on what came before; whether
   it is survived otherwise depends on that, too.
   */
  predicate Grantable(env: Env, r: RequestPacket) {
    && (r.authorizationNames == [] || SelectAuthorization(r.authenticationName, r.authorizationNames).Some?)
    && (Authenticates(r) ==> GetKey(env.keys, r.displayID).Some? && |r.authenticationData| == 8)
  }

  /** The request asks for an authorization that is made with rho, and does not bring rho along. */
  predicate NeedsEarlierRho(r: RequestPacket, random: Option<Bytes>) {
    && r.authorizationNames != [] && SelectAuthorization(r.authenticationName, r.authorizationNames) == Some(XDM_AUTHORIZATION)
    && random.Some? && !Authenticates(r)
  }

  /** A request is turned down, served, or answered with a copy through a null pointer. */
  lemma GrantedExactly(p: Credentials, env: Env, r: RequestPacket, random: Option<Bytes>)
    requires random.Some? ==> |random.value| >= 16
    ensures Authorize(p, env, r, random).TurnedDown? <==> !Grantable(env, r)
    ensures Authorize(p, env, r, random).NullCopy? <==> NeedsEarlierRho(r, random) && p.rho == None
  {
    hide GetKey, SelectAuthorization;
  }

  /** Steps that neither manage, nor turn down, nor time out a proto-display. */
  predicate Spares(step: Step, p: Proto) {
    match step
    case ManageCame(_, from, number, id, _, _, _) => !(from == p.from && number == p.number && id == p.sessionID)
    case Requested(env, r, now, _) =>
      if r.from == p.from && r.number == p.number then Grantable(env, r) else !Expired(p.date, now)
    case _ => true
  }

  /** The proto-display, but for its credentials. */
  predicate IsSame(p: Proto, q: Proto) {
    p.from == q.from && p.number == q.number && p.sessionID == q.sessionID && p.date == q.date
  }

  predicate IsThere(ps: seq<Proto>, p: Proto) {
    exists k :: 0 <= k < |ps| && IsSame(ps[k], p)
  }

  /** Accepted events for the address and number are for this id. */
  predicate OnlyAccepts(log: seq<Event>, n: nat, p: Proto) {
    forall i :: n <= i < |log| && log[i].Accepted? && log[i].from == p.from && log[i].number == p.number ==> log[i].id == p.sessionID
  }

  lemma DisposeSpares(ps: seq<Proto>, i: nat, p: Proto)
    requires i < |ps| && IsThere(ps, p) && !IsSame(ps[i], p)
    ensures IsThere(Dispose(ps, i), p)
  {
    var k :| 0 <= k < |ps| && IsSame(ps[k], p);
    assert Dispose(ps, i)[if k < i then k else k - 1] == ps[k];
  }

  lemma {:induction false} TimeoutSpares(ps: seq<Proto>, now: int, p: Proto)
    requires IsThere(ps, p) && !Expired(p.date, now)
    ensures IsThere(TimeoutProtos(ps, now), p)
  {
    var k :| 0 <= k < |ps| && IsSame(ps[k], p);
    var after := TimeoutProtos(ps, now);
    if k == 0 {
      assert after[0] == ps[0];
    } else {
      assert IsSame(ps[1..][k - 1], p);
      TimeoutSpares(ps[1..], now, p);
      var l :| 0 <= l < |TimeoutProtos(ps[1..], now)| && IsSame(TimeoutProtos(ps[1..], now)[l], p);
      assert IsSame(after[if Expired(ps[0].date, now) then l else l + 1], p);
    }
  }

  lemma FoundIsTheOne(ps: seq<Proto>, p: Proto)
    requires XdmcpSessions.DistinctProtos(ps) && IsThere(ps, p)
    ensures var i := FindProto(ps, p.from, p.number); i < |ps| && IsSame(ps[i], p)
    ensures forall k :: 0 <= k < |ps| && k != FindProto(ps, p.from, p.number) ==> !(ps[k].from == p.from && ps[k].number == p.number)
  {
    var k :| 0 <= k < |ps| && IsSame(ps[k], p);
    forall l | 0 <= l < |ps| && ps[l].from == p.from && ps[l].number == p.number ensures l == k {
      SlotIsUnique(ps, l, k);
    }
  }

  lemma SlotIsUnique(ps: seq<Proto>, l: nat, k: nat)
    requires XdmcpSessions.DistinctProtos(ps) && l < |ps| && k < |ps|
    requires ps[l].from == ps[k].from && ps[l].number == ps[k].number
    ensures l == k
  {
  }

  lemma RequestSpares(w: World, env: Env, r: RequestPacket, now: int, random: Option<Bytes>, p: Proto)
    requires (random.Some? ==> |random.value| >= 16) && XdmcpSessions.DistinctProtos(w.protos) && IsThere(w.protos, p)
    requires Spares(Requested(env, r, now, random), p)
    ensures var after := Request(w, env, r, now, random);
            IsThere(after.protos, p) && |w.log| <= |after.log| && OnlyAccepts(after.log, |w.log|, p)
  {
    FoundIsTheOne(w.protos, p);
    var i := FindProto(w.protos, r.from, r.number);
    if i < |w.protos| {
      GrantSpares(w, env, r, random, i, p);
    } else if Admissible(env, r) {
      TimeoutSpares(w.protos, now, p);
      CreateSpares(w, env, r, now, p);
      hide IsThere, Admissible, Create, Grant;
      GrantSpares(Create(w, env, r, now), env, r, random, 0, p);
    }
  }

  lemma CreateSpares(w: World, env: Env, r: RequestPacket, now: int, p: Proto)
    requires Admissible(env, r) && IsThere(TimeoutProtos(w.protos, now), p)
    ensures var made := Create(w, env, r, now);
            && IsThere(made.protos, p) && made.protos[0].from == r.from && made.protos[0].number == r.number
            && |made.log| == |w.log| + 1 && made.log[|w.log|].Created?
  {
    var made := Create(w, env, r, now);
    var k :| 0 <= k < |TimeoutProtos(w.protos, now)| && IsSame(TimeoutProtos(w.protos, now)[k], p);
    assert made.protos[k + 1] == made.protos[1..][k];
  }

  lemma GrantSpares(w: World, env: Env, r: RequestPacket, random: Option<Bytes>, i: nat, p: Proto)
    requires i < |w.protos| && (random.Some? ==> |random.value| >= 16) && IsThere(w.protos, p)
    requires w.protos[i].from == r.from && w.protos[i].number == r.number
    requires r.from == p.from && r.number == p.number ==> Grantable(env, r) && IsSame(w.protos[i], p)
    ensures var after := Grant(w, env, r, random, i);
            IsThere(after.protos, p) && |w.log| <= |after.log| && OnlyAccepts(after.log, |w.log|, p)
  {
    GrantedExactly(w.protos[i].credentials, env, r, random);
    hide Authorize, Grantable;
    var after := Grant(w, env, r, random, i);
    if Authorize(w.protos[i].credentials, env, r, random).TurnedDown? {
      DisposeSpares(w.protos, i, p);
    } else {
      var k :| 0 <= k < |w.protos| && IsSame(w.protos[k], p);
      assert IsSame(after.protos[k], p);
    }
  }

  lemma ManageSpares(w: World, env: Env, from: Netaddr, number: nat, id: nat, displayClass: string, now: int,
          o: Displays.Outcome, p: Proto)
    requires XdmcpSessions.DistinctProtos(w.protos) && IsThere(w.protos, p)
    requires Spares(ManageCame(env, from, number, id, displayClass, now, o), p)
    ensures var after := Manage(w, env, from, number, id, displayClass, now, o);
            IsThere(after.protos, p) && |w.log| <= |after.log| && OnlyAccepts(after.log, |w.log|, p)
  {
    hide ChooserEntry, Lookup, Displays.TakeOver, IsDuplicate, UsesChooser;
    if Starts(w, env, from, number, id) {
      var i := FindProto(w.protos, from, number);
      DisposeSpares(w.protos, i, p);
    }
  }

  lemma StepSpares(w: World, step: Step, p: Proto)
    requires Possible(step) && XdmcpSessions.DistinctProtos(w.protos) && IsThere(w.protos, p) && Spares(step, p)
    ensures var after := Next(w, step);
            && IsThere(after.protos, p) && |w.log| <= |after.log| && after.log[..|w.log|] == w.log
            && OnlyAccepts(after.log, |w.log|, p)
  {
    XdmcpSessions.StepLogs(w, step);
    hide Request, Manage, Respond, RespondIndirect, Displays.Next, IsThere;
    if !w.dm.alive {
      return;
    }
    match step
    case Queried(env, kind, from) => XdmcpSessions.RespondAppends(w, env, kind, from);
    case QueriedIndirectly(env, from, now) => XdmcpSessions.RespondIndirectAppends(w, env, from, now);
    case Requested(env, packet, now, random) => RequestSpares(w, env, packet, now, random, p);
    case ManageCame(env, from, number, id, displayClass, now, o) => ManageSpares(w, env, from, number, id, displayClass, now, o, p);
    case _ =>
  }

  predicate AllSpare(steps: seq<Step>, p: Proto) {
    forall i :: 0 <= i < |steps| ==> Spares(steps[i], p)
  }

  /**
   Requests for a proto-display may come any number of times, mixed with any other packets: until a
   MANAGE, a refusal or a timeout there stays exactly one proto-display for the address and number,
   and every ACCEPT for them names its session id.
   */
  lemma {:induction false} RetransmissionIsHarmless(w: World, steps: seq<Step>, p: Proto)
    requires AllPossible(steps) && XdmcpSessions.Sessions(w) && IsThere(w.protos, p) && AllSpare(steps, p)
    requires Run(w, steps).globalSessionID < CARD32_LIMIT
    ensures var after := Run(w, steps); var i := FindProto(after.protos, p.from, p.number);
            && i < |after.protos| && IsSame(after.protos[i], p)
            && (forall k :: 0 <= k < |after.protos| && k != i ==> !(after.protos[k].from == p.from && after.protos[k].number == p.number))
            && |w.log| <= |after.log| && after.log[..|w.log|] == w.log && OnlyAccepts(after.log, |w.log|, p)
    decreases steps
  {
    XdmcpSessions.SessionFacts(w);
    if steps == [] {
      FoundIsTheOne(w.protos, p);
    } else {
      var mid := Next(w, steps[0]);
      XdmcpSessions.CounterNeverFalls(mid, steps[1..]);
      XdmcpSessions.StepKeepsSessions(w, steps[0]);
      StepSpares(w, steps[0], p);
      hide XdmcpSessions.Sessions, Next, IsThere, Spares, IsSame, FindProto;
      RetransmissionIsHarmless(mid, steps[1..], p);
      var after := Run(w, steps);
      assert after == Run(mid, steps[1..]);
      assert after.log[..|w.log|] == after.log[..|mid.log|][..|w.log|];
      forall i | |w.log| <= i < |after.log| && after.log[i].Accepted? && after.log[i].from == p.from && after.log[i].number == p.number
        ensures after.log[i].id == p.sessionID
      {
        if i < |mid.log| {
          assert after.log[i] == after.log[..|mid.log|][i];
        }
      }
    }
  }

  // ---------------------------------------------------------------- which authorization a session gets

  datatype Offer = Offer(auth: Auth, key: Bytes)

  /** What the latest ACCEPT for an id that carried an authorization offered, and the key in use then. */
  function LatestOffer(log: seq<Event>, id: nat): Option<Offer> {
    if log == [] then None
    else
      var e := log[|log| - 1];
      if e.Accepted? && e.id == id && e.offered.Some? then Some(Offer(e.offered.value, e.key))
      else LatestOffer(log[..|log| - 1], id)
  }

  /** A file authorization is what was offered last. */
  ghost predicate IsOffered(c: Cipher, log: seq<Event>, id: nat, file: Option<Auth>) {
    file.Some? ==> LatestOffer(log, id).Some? && Agree(c, LatestOffer(log, id).value.key, LatestOffer(log, id).value.auth, file.value)
  }

  ghost predicate AllOffered(c: Cipher, w: World) {
    forall i :: 0 <= i < |w.protos| ==> IsOffered(c, w.log, w.protos[i].sessionID, w.protos[i].credentials.fileAuth)
  }

  lemma {:induction false} NoOffers(log: seq<Event>, more: seq<Event>, id: nat)
    requires forall i :: 0 <= i < |more| ==> !(more[i].Accepted? && more[i].id == id && more[i].offered.Some?)
    ensures LatestOffer(log + more, id) == LatestOffer(log, id)
  {
    if more == [] {
      assert log + more == log;
    } else {
      var n := |more| - 1;
      NoOffers(log, more[..n], id);
      assert (log + more)[..|log + more| - 1] == log + more[..n];
    }
  }

  ghost predicate UsesCipher(step: Step, c: Cipher) {
    step.Requested? ==> step.env.cipher == c
  }

  lemma AuthorizeAgrees(c: Cipher, p: Credentials, env: Env, r: RequestPacket, random: Option<Bytes>)
    requires Inverse(c) && env.cipher == c && (random.Some? ==> |random.value| >= 16)
    requires !Authorize(p, env, r, random).TurnedDown?
    ensures var q := Authorize(p, env, r, random).credentials;
            && (r.authorizationNames == [] ==> q.fileAuth == p.fileAuth)
            && (r.authorizationNames != [] && q.fileAuth.Some? ==>
                  Offered(q).Some? && Agree(c, q.key, Offered(q).value, q.fileAuth.value))
            && (Authorize(p, env, r, random).NullCopy? ==> q.fileAuth == None)
  {
    var selected := SelectAuthorization(r.authenticationName, r.authorizationNames);
    var checked := CheckAuthentication(c, p, env.keys, r.displayID, r.authenticationName, r.authenticationData);
    if r.authorizationNames != [] {
      OfferAgrees(c, checked.value.credentials, selected.value, random);
    }
  }

  lemma LatestOfOne(log: seq<Event>, e: Event, id: nat)
    ensures LatestOffer(log + [e], id)
         == if e.Accepted? && e.id == id && e.offered.Some? then Some(Offer(e.offered.value, e.key)) else LatestOffer(log, id)
  {
    assert (log + [e])[..|log|] == log;
  }

  lemma GrantOffers(c: Cipher, w: World, env: Env, r: RequestPacket, random: Option<Bytes>, i: nat)
    requires Inverse(c) && env.cipher == c && (random.Some? ==> |random.value| >= 16) && i < |w.protos|
    requires XdmcpSessions.DistinctProtos(w.protos) && AllOffered(c, w)
    ensures AllOffered(c, Grant(w, env, r, random, i))
  {
    var after, p, verdict := Grant(w, env, r, random, i), w.protos[i], Authorize(w.protos[i].credentials, env, r, random);
    if !verdict.TurnedDown? {
      AuthorizeAgrees(c, p.credentials, env, r, random);
    }
    hide Agree, Offered, Authorize, LatestOffer;
    forall k | 0 <= k < |after.protos|
      ensures IsOffered(c, after.log, after.protos[k].sessionID, after.protos[k].credentials.fileAuth)
    {
      if verdict.TurnedDown? {
        LatestOfOne(w.log, after.log[|w.log|], after.protos[k].sessionID);
        var l := if k < i then k else k + 1;
        assert after.protos[k] == w.protos[l] && IsOffered(c, w.log, w.protos[l].sessionID, w.protos[l].credentials.fileAuth);
      } else {
        assert IsOffered(c, w.log, w.protos[k].sessionID, w.protos[k].credentials.fileAuth);
        if verdict.Granted? {
          LatestOfOne(w.log, after.log[|w.log|], after.protos[k].sessionID);
        }
        if k != i {
          assert XdmcpSessions.Differ(w.protos[if k < i then k else i], w.protos[if k < i then i else k]);
        }
      }
    }
  }

  lemma {:induction false} TimeoutIsSubset(ps: seq<Proto>, now: int)
    ensures forall i :: 0 <= i < |TimeoutProtos(ps, now)| ==> TimeoutProtos(ps, now)[i] in ps
  {
    if ps != [] {
      TimeoutIsSubset(ps[1..], now);
      var after, rest := TimeoutProtos(ps, now), TimeoutProtos(ps[1..], now);
      forall i | 0 <= i < |after| ensures after[i] in ps {
        assert after == rest || (i == 0 && after[0] == ps[0]) || (i > 0 && after[i] == rest[i - 1]);
      }
    }
  }

  /** Fewer proto-displays, unchanged, and no more offers. */
  lemma FewerOffered(c: Cipher, w: World, after: World, more: seq<Event>)
    requires AllOffered(c, w) && after.log == w.log + more
    requires forall i :: 0 <= i < |after.protos| ==> after.protos[i] in w.protos || after.protos[i].credentials == NO_CREDENTIALS
    requires forall i :: 0 <= i < |more| ==> !more[i].Accepted?
    ensures AllOffered(c, after)
  {
    forall k | 0 <= k < |after.protos|
      ensures IsOffered(c, after.log, after.protos[k].sessionID, after.protos[k].credentials.fileAuth)
    {
      NoOffers(w.log, more, after.protos[k].sessionID);
      hide LatestOffer, Agree;
      if after.protos[k] in w.protos {
        var l :| 0 <= l < |w.protos| && w.protos[l] == after.protos[k];
        assert IsOffered(c, w.log, w.protos[l].sessionID, w.protos[l].credentials.fileAuth);
      }
    }
  }

  lemma RequestOffers(c: Cipher, w: World, env: Env, r: RequestPacket, now: int, random: Option<Bytes>)
    requires Inverse(c) && env.cipher == c && (random.Some? ==> |random.value| >= 16)
    requires XdmcpSessions.Sessions(w) && AllOffered(c, w)
    requires Request(w, env, r, now, random).globalSessionID < CARD32_LIMIT
    ensures AllOffered(c, Request(w, env, r, now, random))
  {
    XdmcpSessions.SessionFacts(w);
    var i := FindProto(w.protos, r.from, r.number);
    XdmcpSessions.RequestCounts(w, env, r, now, random);
    hide XdmcpSessions.Sessions, AllOffered, Grant, Admissible, Overreads, ConnectionOf;
    if i < |w.protos| {
      GrantOffers(c, w, env, r, random, i);
    } else if Admissible(env, r) {
      CreateOffers(c, w, env, r, now);
      GrantOffers(c, Create(w, env, r, now), env, r, random, 0);
    } else if Overreads(env, r) {
      FewerOffered(c, w, Die(w), []);
    } else {
      NothingOffered(c, w, Declined(r.from));
    }
  }

  lemma NothingOffered(c: Cipher, w: World, e: Event)
    requires AllOffered(c, w) && !e.Accepted?
    ensures AllOffered(c, w.(log := w.log + [e]))
  {
    FewerOffered(c, w, w.(log := w.log + [e]), [e]);
  }

  lemma CreateOffers(c: Cipher, w: World, env: Env, r: RequestPacket, now: int)
    requires Admissible(env, r) && XdmcpSessions.Sessions(w) && AllOffered(c, w) && w.globalSessionID + 1 < CARD32_LIMIT
    requires FindProto(w.protos, r.from, r.number) == |w.protos|
    ensures var made := Create(w, env, r, now); AllOffered(c, made) && XdmcpSessions.DistinctProtos(made.protos)
  {
    var made := Create(w, env, r, now);
    XdmcpSessions.SessionFacts(w);
    XdmcpSessions.NotFound(w.protos, r.from, r.number);
    XdmcpSessions.FreshId(w, w.globalSessionID + 1);
    XdmcpSessions.TimeoutFewer(w.protos, now);
    var rest := TimeoutProtos(w.protos, now);
    assert made.protos == [made.protos[0]] + rest;
    hide XdmcpSessions.Sessions, AllOffered, Admissible;
    XdmcpSessions.OldProtosDiffer(w.protos, rest, w.globalSessionID + 1, r.from, r.number);
    FewerOffered(c, w, made, [made.log[|w.log|]]);
    forall k, l | 0 <= k < l < |made.protos| ensures XdmcpSessions.Differ(made.protos[k], made.protos[l]) {
      assert made.protos[l] == rest[l - 1];
      if k > 0 {
        assert made.protos[k] == rest[k - 1];
      }
    }
  }

  lemma StepOffers(c: Cipher, w: World, step: Step)
    requires Inverse(c) && UsesCipher(step, c) && Possible(step)
    requires XdmcpSessions.Sessions(w) && AllOffered(c, w) && Next(w, step).globalSessionID < CARD32_LIMIT
    ensures AllOffered(c, Next(w, step))
  {
    if !w.dm.alive {
    } else if step.Requested? {
      RequestOffers(c, w, step.env, step.packet, step.now, step.random);
    } else {
      OtherShape(w, step);
      hide Next, AllOffered, XdmcpSessions.Sessions, Possible;
      FewerOffered(c, w, Next(w, step), Next(w, step).log[|w.log|..]);
    }
  }

  /** No ACCEPT is sent, and the proto-displays are some of those before. */
  predicate AddsNoOffer(w: World, after: World) {
    && |w.log| <= |after.log| && after.log == w.log + after.log[|w.log|..]
    && (forall i :: |w.log| <= i < |after.log| ==> !after.log[i].Accepted?)
    && (forall i :: 0 <= i < |after.protos| ==> after.protos[i] in w.protos)
  }

  lemma AppendsAddNoOffer(w: World, after: World)
    requires XdmcpSessions.Appends(w, after)
    ensures AddsNoOffer(w, after)
  {
    assert after.log == after.log[..|w.log|] + after.log[|w.log|..];
  }

  lemma ManageAddsNoOffer(w: World, env: Env, from: Netaddr, number: nat, id: nat, displayClass: string, now: int,
          o: Displays.Outcome)
    ensures AddsNoOffer(w, Manage(w, env, from, number, id, displayClass, now, o))
  {
    hide Starts, StartSession, IsNamed, IsDuplicate, AddsNoOffer;
    if Starts(w, env, from, number, id) {
      StartOnlyDisposes(w, env, from, number, id, displayClass, now, o);
      XdmcpSessions.StartsMeans(w, env, from, number, id);
    } else {
      AppendsAddNoOffer(w, Manage(w, env, from, number, id, displayClass, now, o));
    }
  }

  lemma OtherShape(w: World, step: Step)
    requires Possible(step) && !step.Requested?
    ensures AddsNoOffer(w, Next(w, step))
  {
    hide Respond, RespondIndirect, Manage, KeepAlive, Register, Displays.Next, AddsNoOffer;
    var after := Next(w, step);
    if step.ManageCame? && w.dm.alive {
      ManageAddsNoOffer(w, step.env, step.from, step.number, step.id, step.displayClass, step.now, step.outcome);
    } else if step.Ran? {
      RanAddsNoOffer(w, step.step);
    } else {
      OtherAppends(w, step);
      AppendsAddNoOffer(w, after);
    }
  }

  lemma RanAddsNoOffer(w: World, step: Displays.Step)
    ensures AddsNoOffer(w, w) && AddsNoOffer(w, w.(dm := Displays.Next(w.dm, step)))
  {
    hide Displays.Next;
    assert w.log + w.log[|w.log|..] == w.log;
  }

  lemma OtherAppends(w: World, step: Step)
    requires Possible(step) && !step.Requested? && !step.Ran? && (step.ManageCame? ==> !w.dm.alive)
    ensures XdmcpSessions.Appends(w, Next(w, step))
  {
    hide Respond, RespondIndirect, Register;
    match step
    case Queried(env, kind, from) => XdmcpSessions.RespondAppends(w, env, kind, from);
    case QueriedIndirectly(env, from, now) => XdmcpSessions.RespondIndirectAppends(w, env, from, now);
    case _ =>
  }

  lemma StartOnlyDisposes(w: World, env: Env, from: Netaddr, number: nat, id: nat, displayClass: string, now: int,
          o: Displays.Outcome)
    requires Starts(w, env, from, number, id)
    ensures AddsNoOffer(w, StartSession(w, env, from, number, id, displayClass, now, o))
  {
    hide ChooserEntry, Displays.TakeOver, UsesChooser;
  }

  ghost predicate AllUseCipher(steps: seq<Step>, c: Cipher) {
    forall i :: 0 <= i < |steps| ==> UsesCipher(steps[i], c)
  }

  lemma {:induction false} RunOffers(c: Cipher, w: World, steps: seq<Step>)
    requires Inverse(c) && AllUseCipher(steps, c) && AllPossible(steps)
    requires XdmcpSessions.Sessions(w) && AllOffered(c, w) && Run(w, steps).globalSessionID < CARD32_LIMIT
    ensures AllOffered(c, Run(w, steps))
    decreases steps
  {
    if steps != [] {
      var mid := Next(w, steps[0]);
      XdmcpSessions.CounterNeverFalls(mid, steps[1..]);
      StepOffers(c, w, steps[0]);
      XdmcpSessions.StepKeepsSessions(w, steps[0]);
      hide XdmcpSessions.Sessions, AllOffered, Next;
      RunOffers(c, mid, steps[1..]);
    }
  }

  /**
   Whatever packets came before, repeated requests included: the authorization a MANAGE moves to the
   display is one that the latest ACCEPT for its id that carried any lets the display use.
   */
  lemma AuthorizationMatchesOffer(c: Cipher, time: nat, timeout: int, steps: seq<Step>,
                                  env: Env, from: Netaddr, number: nat, id: nat, displayClass: string, now: int,
                                  o: Displays.Outcome)
    requires Inverse(c) && AllUseCipher(steps, c) && AllPossible(steps)
    requires Run(Init(time, timeout), steps).globalSessionID - InitSessionID(time) <= XdmcpSessions.IDS_BEFORE_WRAP
    requires Starts(Run(Init(time, timeout), steps), env, from, number, id)
    ensures var w := Run(Init(time, timeout), steps);
            var log := StartSession(w, env, from, number, id, displayClass, now, o).log;
            && log != [] && IsStartOf(log[|log| - 1], from, number, id)
            && IsOffered(c, w.log, id, log[|log| - 1].auth)
  {
    RunOffers(c, Init(time, timeout), steps);
    hide Run, ChooserEntry, Displays.TakeOver, UsesChooser, LatestOffer, Agree;
    var w := Run(Init(time, timeout), steps);
    var i := FindProto(w.protos, from, number);
    assert IsOffered(c, w.log, w.protos[i].sessionID, w.protos[i].credentials.fileAuth);
  }

  /** The request authenticates with rho under its key, and asks for the authorization that goes with that. */
  ghost predicate BringsRho(env: Env, r: RequestPacket, rho: Bytes) {
    && Inverse(env.cipher) && |rho| == 8
    && r.authenticationName == XDM_AUTHENTICATION && XDM_AUTHORIZATION in r.authorizationNames
    && GetKey(env.keys, r.displayID).Some?
    && r.authenticationData == env.cipher.wrap(GetKey(env.keys, r.displayID).value, rho)
  }

  /**
   An accepted request with XDM-AUTHENTICATION-1 and XDM-AUTHORIZATION-1: the display finds rho + 1 and
   a session key in the ACCEPT, and the proto-display keeps rho followed by that session key, which is
   a zero byte and seven of the random ones.
   */
  lemma AcceptedRequestSharesKey(w: World, env: Env, r: RequestPacket, random: Bytes, i: nat, rho: Bytes)
    requires BringsRho(env, r, rho) && |random| >= 16 && i < |w.protos|
    ensures var after, key := Grant(w, env, r, Some(random), i), GetKey(env.keys, r.displayID).value;
            && |after.log| == |w.log| + 1 && |after.protos| == |w.protos| && var e := after.log[|w.log|];
            && XdmcpSessions.IsAcceptance(e, w.protos[i].sessionID, r.from, r.number)
            && env.cipher.unwrap(key, e.reply) == Increment(rho)
            && e.offered.Some? && after.protos[i].credentials.fileAuth.Some?
            && var sigma := env.cipher.unwrap(key, e.offered.value.data);
               && sigma == [0] + random[1..8]
               && after.protos[i].credentials.fileAuth.value == Auth(XDM_AUTHORIZATION, rho + sigma)
  {
    AuthorizeSharesKey(w.protos[i].credentials, env, r, random, rho);
    hide GetKey, Increment, Authorize, Offered;
  }

  lemma AuthorizeSharesKey(p: Credentials, env: Env, r: RequestPacket, random: Bytes, rho: Bytes)
    requires BringsRho(env, r, rho) && |random| >= 16
    ensures var granted, key := Authorize(p, env, r, Some(random)), GetKey(env.keys, r.displayID).value;
            && granted.Granted? && env.cipher.unwrap(key, granted.reply) == Increment(rho)
            && var q := granted.credentials;
               && Offered(q).Some? && q.fileAuth.Some?
               && var sigma := env.cipher.unwrap(key, Offered(q).value.data);
                  && sigma == [0] + random[1..8]
                  && q.fileAuth.value == Auth(XDM_AUTHORIZATION, rho + sigma)
  {
    PartnerIsSelected(r.authorizationNames);
    AuthorizeIs(p, env, r, random);
    hide *;
    DisplayAndFileAgree(env.cipher, p, env.keys, r.displayID, rho, r.authenticationName, random);
  }

  lemma PartnerIsSelected(names: seq<Bytes>)
    requires XDM_AUTHORIZATION in names
    ensures SelectAuthorization(XDM_AUTHENTICATION, names) == Some(XDM_AUTHORIZATION) && XDM_AUTHENTICATION <= XDM_AUTHENTICATION
  {
  }

  /** The verdict on a request for XDM-AUTHORIZATION-1. */
  lemma AuthorizeIs(p: Credentials, env: Env, r: RequestPacket, random: Bytes)
    requires |random| >= 16 && r.authorizationNames != []
    requires SelectAuthorization(r.authenticationName, r.authorizationNames) == Some(XDM_AUTHORIZATION)
    ensures var checked := CheckAuthentication(env.cipher, p, env.keys, r.displayID, r.authenticationName, r.authenticationData);
            checked.Some? && !CopiesNull(checked.value.credentials, XDM_AUTHORIZATION, Some(random)) ==>
              Authorize(p, env, r, Some(random)) == Granted(
                SetAuthorization(env.cipher, checked.value.credentials, XDM_AUTHORIZATION, Some(random)), checked.value.reply)
  {
    hide CheckAuthentication, SetAuthorization, CopiesNull, SelectAuthorization;
  }

  /** Steps that leave a proto-display exactly as it is. */
  predicate Leaves(step: Step, p: Proto) {
    && Spares(step, p)
    && !(step.Requested? && step.packet.from == p.from && step.packet.number == p.number)
  }

  lemma {:induction false} TimeoutLeaves(ps: seq<Proto>, now: int, p: Proto)
    requires p in ps && !Expired(p.date, now)
    ensures p in TimeoutProtos(ps, now)
  {
    if ps[0] != p {
      TimeoutLeaves(ps[1..], now, p);
    }
  }

  lemma DisposeLeaves(ps: seq<Proto>, i: nat, p: Proto)
    requires i < |ps| && p in ps && ps[i] != p
    ensures p in Dispose(ps, i)
  {
    var k :| 0 <= k < |ps| && ps[k] == p;
    assert Dispose(ps, i)[if k < i then k else k - 1] == p;
  }

  lemma GrantLeaves(w: World, env: Env, r: RequestPacket, random: Option<Bytes>, i: nat, p: Proto)
    requires i < |w.protos| && (random.Some? ==> |random.value| >= 16) && p in w.protos && w.protos[i] != p
    ensures p in Grant(w, env, r, random, i).protos
  {
    hide Authorize;
    DisposeLeaves(w.protos, i, p);
    var k :| 0 <= k < |w.protos| && w.protos[k] == p;
    if !Authorize(w.protos[i].credentials, env, r, random).TurnedDown? {
      assert Grant(w, env, r, random, i).protos[k] == p;
    }
  }

  lemma StepLeaves(w: World, step: Step, p: Proto)
    requires Possible(step) && p in w.protos && XdmcpSessions.DistinctProtos(w.protos) && Leaves(step, p)
    ensures p in Next(w, step).protos
  {
    hide Acceptable, ChooserEntry, IndirectTargets, Displays.Next, Displays.TakeOver, Admissible, Welcome, ConnectionOf,
      IsDuplicate, UsesChooser, Grant;
    if !w.dm.alive {
      return;
    }
    match step
    case Requested(env, r, now, random) =>
      var i := FindProto(w.protos, r.from, r.number);
      if i < |w.protos| {
        GrantLeaves(w, env, r, random, i, p);
      } else if Admissible(env, r) {
        TimeoutLeaves(w.protos, now, p);
        var made := Create(w, env, r, now);
        assert made.protos[1..] == TimeoutProtos(w.protos, now) && made.protos[0].from == r.from && made.protos[0].number == r.number;
        GrantLeaves(made, env, r, random, 0, p);
      }
    case ManageCame(env, from, number, id, displayClass, now, o) =>
      if Starts(w, env, from, number, id) {
        DisposeLeaves(w.protos, FindProto(w.protos, from, number), p);
      }
    case _ =>
  }

  predicate AllLeave(steps: seq<Step>, p: Proto) {
    forall i :: 0 <= i < |steps| ==> Leaves(steps[i], p)
  }

  lemma {:induction false} RunLeaves(w: World, steps: seq<Step>, p: Proto)
    requires AllPossible(steps) && XdmcpSessions.Sessions(w) && p in w.protos && AllLeave(steps, p)
    requires Run(w, steps).globalSessionID < CARD32_LIMIT
    ensures p in Run(w, steps).protos && XdmcpSessions.Sessions(Run(w, steps))
    decreases steps
  {
    XdmcpSessions.SessionFacts(w);
    if steps != [] {
      var mid := Next(w, steps[0]);
      XdmcpSessions.CounterNeverFalls(mid, steps[1..]);
      XdmcpSessions.StepKeepsSessions(w, steps[0]);
      StepLeaves(w, steps[0], p);
      hide XdmcpSessions.Sessions, Next, Leaves;
      RunLeaves(mid, steps[1..], p);
    }
  }

  /**
   From REQUEST to MANAGE: when a display's last REQUEST was granted with XDM-AUTHENTICATION-1 and
   XDM-AUTHORIZATION-1, then after any other packets its MANAGE starts a session whose authorization
   is rho followed by the very session key the display finds in its ACCEPT, beside rho + 1: a zero byte
   and seven random ones.
   */
  lemma SessionGetsSharedKey(w: World, env: Env, r: RequestPacket, random: Bytes, i: nat, rho: Bytes, steps: seq<Step>,
                             atManage: Env, displayClass: string, now: int, o: Displays.Outcome)
    requires BringsRho(env, r, rho) && |random| >= 16 && i < |w.protos| && XdmcpSessions.Sessions(w)
    requires r.from == w.protos[i].from && r.number == w.protos[i].number
    requires var mid := Grant(w, env, r, Some(random), i);
             && AllPossible(steps) && i < |mid.protos| && AllLeave(steps, mid.protos[i])
             && Run(mid, steps).globalSessionID < CARD32_LIMIT
             && Starts(Run(mid, steps), atManage, r.from, r.number, w.protos[i].sessionID)
    ensures var mid, key := Grant(w, env, r, Some(random), i), GetKey(env.keys, r.displayID).value;
            var log := StartSession(Run(mid, steps), atManage, r.from, r.number, w.protos[i].sessionID, displayClass, now, o).log;
            && |mid.log| == |w.log| + 1 && var e := mid.log[|w.log|];
            && XdmcpSessions.IsAcceptance(e, w.protos[i].sessionID, r.from, r.number)
            && env.cipher.unwrap(key, e.reply) == Increment(rho) && e.offered.Some?
            && log != [] && IsStartOf(log[|log| - 1], r.from, r.number, w.protos[i].sessionID)
            && env.cipher.unwrap(key, e.offered.value.data) == [0] + random[1..8]
            && log[|log| - 1].auth == Some(Auth(XDM_AUTHORIZATION, rho + [0] + random[1..8]))
  {
    hide BringsRho, Increment, GetKey, Grant, XdmcpSessions.Sessions, Starts, StartSession, AllLeave, Run;
    RhoIsEight(env, r, rho);
    AcceptedRequestSharesKey(w, env, r, random, i, rho);
    XdmcpSessions.RepeatedRequestKeeps(w, env, r, Some(random), i);
    var mid := Grant(w, env, r, Some(random), i);
    assert rho + ([0] + random[1..8]) == rho + [0] + random[1..8];
    GrantKeepsSlot(w, env, r, Some(random), i);
    StartsWithProto(mid, steps, i, atManage, r.from, r.number, displayClass, now, o);
  }

  /**
   The same for a cookie: when a display's last REQUEST was granted with MIT-MAGIC-COOKIE-1, its ACCEPT
   and, after any other packets, the session of its MANAGE have the sixteen random bytes.
   */
  lemma SessionGetsCookie(w: World, env: Env, r: RequestPacket, random: Bytes, i: nat, steps: seq<Step>,
                          atManage: Env, displayClass: string, now: int, o: Displays.Outcome)
    requires |random| >= 16 && i < |w.protos| && XdmcpSessions.Sessions(w)
    requires r.from == w.protos[i].from && r.number == w.protos[i].number && Grantable(env, r)
    requires r.authorizationNames != [] && SelectAuthorization(r.authenticationName, r.authorizationNames) == Some(MIT_MAGIC_COOKIE)
    requires var mid := Grant(w, env, r, Some(random), i);
             && AllPossible(steps) && i < |mid.protos| && AllLeave(steps, mid.protos[i])
             && Run(mid, steps).globalSessionID < CARD32_LIMIT
             && Starts(Run(mid, steps), atManage, r.from, r.number, w.protos[i].sessionID)
    ensures var mid, cookie := Grant(w, env, r, Some(random), i), Auth(MIT_MAGIC_COOKIE, random[..16]);
            var log := StartSession(Run(mid, steps), atManage, r.from, r.number, w.protos[i].sessionID, displayClass, now, o).log;
            && |mid.log| == |w.log| + 1 && var e := mid.log[|w.log|];
            && XdmcpSessions.IsAcceptance(e, w.protos[i].sessionID, r.from, r.number) && e.offered == Some(cookie)
            && log != [] && IsStartOf(log[|log| - 1], r.from, r.number, w.protos[i].sessionID)
            && log[|log| - 1].auth == Some(cookie)
  {
    hide SelectAuthorization, Grantable, Grant, XdmcpSessions.Sessions, Starts, StartSession, AllLeave, Run;
    AcceptedRequestGetsCookie(w, env, r, random, i);
    XdmcpSessions.RepeatedRequestKeeps(w, env, r, Some(random), i);
    GrantKeepsSlot(w, env, r, Some(random), i);
    StartsWithProto(Grant(w, env, r, Some(random), i), steps, i, atManage, r.from, r.number, displayClass, now, o);
  }

  lemma AcceptedRequestGetsCookie(w: World, env: Env, r: RequestPacket, random: Bytes, i: nat)
    requires |random| >= 16 && i < |w.protos| && Grantable(env, r)
    requires r.authorizationNames != [] && SelectAuthorization(r.authenticationName, r.authorizationNames) == Some(MIT_MAGIC_COOKIE)
    ensures var after, cookie := Grant(w, env, r, Some(random), i), Auth(MIT_MAGIC_COOKIE, random[..16]);
            && |after.log| == |w.log| + 1 && |after.protos| == |w.protos|
            && XdmcpSessions.IsAcceptance(after.log[|w.log|], w.protos[i].sessionID, r.from, r.number)
            && after.log[|w.log|].offered == Some(cookie) == after.protos[i].credentials.fileAuth
  {
    DistinctProtocols();
    GrantedExactly(w.protos[i].credentials, env, r, Some(random));
    var checked := CheckAuthentication(env.cipher, w.protos[i].credentials, env.keys, r.displayID, r.authenticationName, r.authenticationData);
    hide SelectAuthorization, GetKey;
    CookieIsRandom(env.cipher, checked.value.credentials, random);
    hide SetAuthorization;
  }

  lemma GrantKeepsSlot(w: World, env: Env, r: RequestPacket, random: Option<Bytes>, i: nat)
    requires i < |w.protos| && (random.Some? ==> |random.value| >= 16) && |Grant(w, env, r, random, i).protos| == |w.protos|
    ensures XdmcpSessions.SameSlot(w.protos[i], Grant(w, env, r, random, i).protos[i])
  {
    hide Authorize;
  }

  /** After steps that leave a proto-display alone, its MANAGE starts a session with the authorization kept for it. */
  lemma StartsWithProto(w: World, steps: seq<Step>, i: nat, env: Env, from: Netaddr, number: nat, displayClass: string,
                        now: int, o: Displays.Outcome)
    requires XdmcpSessions.Sessions(w) && i < |w.protos| && w.protos[i].from == from && w.protos[i].number == number
    requires AllPossible(steps) && AllLeave(steps, w.protos[i]) && Run(w, steps).globalSessionID < CARD32_LIMIT
    requires Starts(Run(w, steps), env, from, number, w.protos[i].sessionID)
    ensures var log := StartSession(Run(w, steps), env, from, number, w.protos[i].sessionID, displayClass, now, o).log;
            && log != [] && IsStartOf(log[|log| - 1], from, number, w.protos[i].sessionID)
            && log[|log| - 1].auth == w.protos[i].credentials.fileAuth
  {
    var p, later := w.protos[i], Run(w, steps);
    RunLeaves(w, steps, p);
    XdmcpSessions.SessionFacts(later);
    hide XdmcpSessions.Sessions, Run, AllLeave, Starts, StartSession, IsStartOf;
    var k :| 0 <= k < |later.protos| && later.protos[k] == p;
    var f := FindProto(later.protos, from, number);
    assert f < |later.protos|;
    SlotIsUnique(later.protos, f, k);
    StartedWith(later, env, from, number, p.sessionID, displayClass, now, o);
  }

  lemma RhoIsEight(env: Env, r: RequestPacket, rho: Bytes)
    requires BringsRho(env, r, rho)
    ensures |rho| == 8 && GetKey(env.keys, r.displayID).Some?
  {
  }

  /** Two requests whose randomness differs where the key comes from it leave different authorizations. */
  lemma OtherRandomOtherKey(w: World, env: Env, r: RequestPacket, random: Bytes, i: nat, rho: Bytes,
                            v: World, atOther: Env, s: RequestPacket, other: Bytes, j: nat, ohr: Bytes)
    requires BringsRho(env, r, rho) && |random| >= 16 && i < |w.protos|
    requires BringsRho(atOther, s, ohr) && |other| >= 16 && j < |v.protos|
    requires random[1..8] != other[1..8]
    ensures var ps, qs := Grant(w, env, r, Some(random), i).protos, Grant(v, atOther, s, Some(other), j).protos;
            && i < |ps| && j < |qs| && ps[i].credentials.fileAuth != qs[j].credentials.fileAuth
  {
    hide Grant, GetKey, Inverse, Increment, BringsRho;
    RhoIsEight(env, r, rho);
    RhoIsEight(atOther, s, ohr);
    AcceptedRequestSharesKey(w, env, r, random, i, rho);
    AcceptedRequestSharesKey(v, atOther, s, other, j, ohr);
    assert (rho + ([0] + random[1..8]))[9..] == random[1..8];
    assert (ohr + ([0] + other[1..8]))[9..] == other[1..8];
  }

  lemma StartedWith(w: World, env: Env, from: Netaddr, number: nat, id: nat, displayClass: string, now: int,
          o: Displays.Outcome)
    requires Starts(w, env, from, number, id)
    ensures var log := StartSession(w, env, from, number, id, displayClass, now, o).log;
            && log != [] && IsStartOf(log[|log| - 1], from, number, id)
            && log[|log| - 1].auth == w.protos[FindProto(w.protos, from, number)].credentials.fileAuth
  {
    hide ChooserEntry, Displays.TakeOver, UsesChooser;
  }

  // ---------------------------------------------------------------- the displays below

  lemma LivingOrNot(st: Displays.State)
    requires Lifecycle.Inv(st)
    ensures Lifecycle.Inv(st.(alive := false))
  {
  }

  /** Packets keep the life cycle's invariant, too. */
  lemma PacketsKeepDisplays(w: World, step: Step)
    requires Possible(step) && Lifecycle.Inv(w.dm)
    ensures Lifecycle.Inv(Next(w, step).dm)
  {
    LivingOrNot(w.dm);
    hide Lifecycle.Inv, Displays.Next, Displays.TakeOver, Acceptable, ChooserEntry, IndirectTargets,
      Admissible, Welcome, ConnectionOf, Authorize, IsDuplicate, UsesChooser;
    match step
    case ManageCame(env, from, number, id, displayClass, now, o) =>
      if Starts(w, env, from, number, id) {
        var p, c := w.protos[FindProto(w.protos, from, number)], ClientOf(from);
        var link := Displays.Link(id, from, number, UsesChooser(w, env, c, now), p.credentials.fileAuth);
        Lifecycle.TakeOverKeeps(w.dm, env.displayName(p.connection, from, number).value, ClassOf(displayClass), link,
                                env.resources, o);
      }
    case Ran(s) => Lifecycle.StepKeeps(w.dm, s);
    case _ =>
  }
}
