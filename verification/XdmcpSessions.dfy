/**
 Session ids over whole runs: each starts at most one display, for the address and number it was
 accepted for, and no two sessions in use share one.
 */
module XdmcpSessions {
  import opened Options
  import opened Network
  import Displays
  import Lifecycle
  import opened AccessQueries
  import opened Xdmcp

  // ---------------------------------------------------------------- ids of displays

  /** Session ids of displays; those from the servers file have 0. */
  function Ids(ds: seq<Displays.Display>): set<nat> {
    set i | 0 <= i < |ds| && ds[i].link.sessionID != 0 :: ds[i].link.sessionID
  }

  predicate UniqueIds(ds: seq<Displays.Display>) {
    forall i, j :: 0 <= i < j < |ds| && ds[i].link.sessionID != 0 ==> ds[i].link.sessionID != ds[j].link.sessionID
  }

  /** No id appears that was not there before. */
  predicate NoNewIds(before: seq<Displays.Display>, after: seq<Displays.Display>) {
    UniqueIds(after) && Ids(after) <= Ids(before)
  }

  lemma ReplaceIds(ds: seq<Displays.Display>, i: nat, r: Option<Displays.Display>)
    requires UniqueIds(ds) && i < |ds| && (r.Some? ==> r.value.link == ds[i].link)
    ensures NoNewIds(ds, Displays.Replace(ds, i, r))
  {
    var after := Displays.Replace(ds, i, r);
    assert forall k :: 0 <= k < |after| ==> after[k].link == ds[Lifecycle.Source(i, r, k)].link;
  }

  lemma PrependIds(ds: seq<Displays.Display>, d: Displays.Display)
    requires UniqueIds(ds) && d.link.sessionID !in Ids(ds)
    ensures UniqueIds([d] + ds) && Ids([d] + ds) <= Ids(ds) + {d.link.sessionID}
    ensures d.link.sessionID == 0 ==> Ids([d] + ds) <= Ids(ds)
  {
    var after := [d] + ds;
    assert forall k :: 0 < k < |after| ==> after[k] == ds[k - 1];
  }

  lemma SameLinks(before: seq<Displays.Display>, after: seq<Displays.Display>)
    requires UniqueIds(before) && |before| == |after|
    requires forall i :: 0 <= i < |before| ==> after[i].link == before[i].link
    ensures NoNewIds(before, after)
  {
  }

  lemma {:induction false} ScanIds(ds: seq<Displays.Display>, lines: seq<seq<string>>)
    requires UniqueIds(ds)
    ensures NoNewIds(ds, Displays.ScanServers(ds, lines))
    decreases lines
  {
    if lines != [] {
      var mid := Displays.ParseDisplay(ds, lines[0]);
      if |lines[0]| < 2 || Displays.FirstNamed(ds, lines[0][0]) < |ds| {
        SameLinks(ds, mid);
      } else {
        PrependIds(ds, mid[0]);
      }
      hide Displays.ReadsNull;
      ScanIds(mid, lines[1..]);
    }
  }

  lemma RereadIds(st: Displays.State, lines: seq<seq<string>>)
    requires UniqueIds(st.displays)
    ensures NoNewIds(st.displays, Displays.Reread(st, lines).displays)
  {
    SameLinks(st.displays, Displays.MarkAll(st.displays));
    ScanIds(Displays.MarkAll(st.displays), lines);
  }

  lemma {:induction false} StopFromIds(ds: seq<Displays.Display>, i: nat)
    requires UniqueIds(ds) && i <= |ds|
    ensures NoNewIds(ds, Displays.StopFrom(ds, i))
    decreases |ds| - i
  {
    if i < |ds| {
      var r := Displays.StopDisplay(ds[i]);
      ReplaceIds(ds, i, r);
      StopFromIds(Displays.Replace(ds, i, r), if r == None then i else i + 1);
    }
  }

  lemma {:induction false} CheckFromIds(st: Displays.State, i: nat, db: Displays.Database, os: seq<Displays.Outcome>)
    requires UniqueIds(st.displays) && i <= |st.displays|
    ensures NoNewIds(st.displays, Displays.CheckFrom(st, i, db, os).displays)
    decreases |st.displays| - i
  {
    if i < |st.displays| {
      var r := Displays.CheckDisplayStatus(st.displays[i], st.children, db, Displays.OutcomeAt(os));
      ReplaceIds(st.displays, i, r.display);
      CheckFromIds(Displays.Update(st, i, r), if r.display == None then i else i + 1, db, if os == [] then [] else os[1..]);
    }
  }

  lemma LinkStays(d: Displays.Display, exit: Displays.Exit, now: int)
    ensures var r := Displays.SessionExit(d, exit, now); r.Some? ==> r.value.link == d.link
    ensures var r := Displays.ServerExit(d); r.Some? ==> r.value.link == d.link
  {
  }

  lemma DispatchIds(st: Displays.State, pid: Displays.Pid, exit: Displays.Exit, now: int)
    requires UniqueIds(st.displays)
    ensures NoNewIds(st.displays, Displays.Dispatch(st, pid, exit, now).displays)
  {
    var ds := st.displays;
    var i, k := Displays.FirstWithPid(ds, pid), Displays.FirstWithServerPid(ds, pid);
    assert NoNewIds(ds, ds);
    hide UniqueIds, Ids, Displays.Replace, NoNewIds;
    if i < |ds| {
      LinkStays(ds[i], exit, now);
      ReplaceIds(ds, i, Displays.SessionExit(ds[i], exit, now));
    } else if k < |ds| {
      LinkStays(ds[k], exit, now);
      ReplaceIds(ds, k, Displays.ServerExit(ds[k]));
    }
  }

  /** No step but a MANAGE brings a session id onto the list. */
  lemma StepIds(st: Displays.State, step: Displays.Step)
    requires UniqueIds(st.displays) && !step.TakenOver?
    ensures NoNewIds(st.displays, Displays.Next(st, step).displays)
  {
    var ds := st.displays;
    assert NoNewIds(ds, ds);
    hide Displays.Dispatch, Displays.Reread;
    match step
    case Reaped(pid, exit, now, rescan) =>
      if rescan.Some? {
        RereadIds(st, rescan.value);
        DispatchIds(Displays.Reread(st, rescan.value), pid, exit, now);
      } else {
        DispatchIds(st, pid, exit, now);
      }
    case Checked(db, os) => CheckFromIds(st, 0, db, os);
    case Rescanned(lines, db, os) =>
      RereadIds(st, lines);
      CheckFromIds(Displays.Reread(st, lines), 0, db, os);
    case Added(db, o) =>
      var i := Displays.FirstDynamic(ds);
      if i < |ds| {
        ReplaceIds(ds, i, Displays.StartDisplay(ds[i], st.children, db, o).display);
      }
    case Stopped => StopFromIds(ds, 0);
  }

  lemma TakeOverIds(st: Displays.State, name: string, cls: Option<string>, link: Displays.Link, db: Displays.Database,
          o: Displays.Outcome)
    requires UniqueIds(st.displays) && link.sessionID !in Ids(st.displays)
    ensures var after := Displays.TakeOver(st, name, cls, link, db, o).displays;
            UniqueIds(after) && Ids(after) <= Ids(st.displays) + {link.sessionID}
  {
    var i := Displays.FirstNamed(st.displays, name);
    if i < |st.displays| {
      ReplaceIds(st.displays, i, Displays.StopDisplay(st.displays[i]));
    }
    var rest := Displays.StopNamed(st.displays, name);
    PrependIds(rest, Displays.Managed(name, cls, link));
    ReplaceIds([Displays.Managed(name, cls, link)] + rest, 0,
               Displays.StartDisplay(Displays.Managed(name, cls, link), st.children, db, o).display);
  }

  // ---------------------------------------------------------------- the invariant

  /** Created and then accepted, within the first `n` events. */
  predicate Granted(log: seq<Event>, n: nat, id: nat, from: Netaddr, number: nat)
    requires n <= |log|
  {
    exists j, k :: 0 <= j < k < n && log[j] == Created(id, from, number) && IsAcceptance(log[k], id, from, number)
  }

  predicate IsAcceptance(e: Event, id: nat, from: Netaddr, number: nat) {
    e.Accepted? && e.id == id && e.from == from && e.number == number
  }

  predicate IsStart(e: Event, id: nat) {
    e.Started? && e.id == id
  }

  /** The ids in use: proto-displays and displays, all different, all issued, none used up. */
  ghost predicate IdsInUse(w: World) {
    && w.globalSessionID < CARD32_LIMIT
    && UniqueIds(w.dm.displays)
    && (forall id :: id in Ids(w.dm.displays) ==> id <= w.globalSessionID)
    && (forall p :: p in w.protos ==> 0 < p.sessionID <= w.globalSessionID && p.sessionID !in Ids(w.dm.displays))
    && DistinctProtos(w.protos)
  }

  /** No session was started twice, and those that can still be started were not. */
  ghost predicate StartedOnce(w: World) {
    && (forall i :: 0 <= i < |w.log| && w.log[i].Started? ==> w.log[i].id <= w.globalSessionID)
    && (forall p, i :: p in w.protos && 0 <= i < |w.log| ==> !IsStart(w.log[i], p.sessionID))
    && (forall i, j :: 0 <= i < j < |w.log| && w.log[i].Started? && w.log[j].Started? ==> w.log[i].id != w.log[j].id)
  }

  /** Every session was granted before it was started. */
  ghost predicate AllGranted(w: World) {
    && (forall i :: 0 <= i < |w.log| && w.log[i].Started? ==> Granted(w.log, i, w.log[i].id, w.log[i].from, w.log[i].number))
    && (w.dm.alive ==> forall p :: p in w.protos ==> Granted(w.log, |w.log|, p.sessionID, p.from, p.number))
  }

  ghost predicate Sessions(w: World) {
    IdsInUse(w) && StartedOnce(w) && AllGranted(w)
  }

  // ---------------------------------------------------------------- steps

  lemma GrantedStays(log: seq<Event>, more: seq<Event>, n: nat, m: nat, id: nat, from: Netaddr, number: nat)
    requires n <= |log| && n <= m <= |log + more| && Granted(log, n, id, from, number)
    ensures Granted(log + more, m, id, from, number)
  {
    var j, k :| 0 <= j < k < n && log[j] == Created(id, from, number) && IsAcceptance(log[k], id, from, number);
    assert (log + more)[j] == log[j] && (log + more)[k] == log[k];
  }

  /** Steps that start no session: fewer proto-displays, no new ids, no Started event. */
  predicate IsQuiet(w: World, after: World, more: seq<Event>) {
    && after.log == w.log + more && (forall i :: 0 <= i < |more| ==> !more[i].Started?)
    && w.globalSessionID <= after.globalSessionID < CARD32_LIMIT
    && NoNewIds(w.dm.displays, after.dm.displays) && (after.dm.alive ==> w.dm.alive)
  }

  predicate SameSlot(p: Proto, q: Proto) {
    p.from == q.from && p.number == q.number && p.sessionID == q.sessionID
  }

  predicate IsAmong(p: Proto, ps: seq<Proto>) {
    exists k :: 0 <= k < |ps| && SameSlot(p, ps[k])
  }

  predicate Differ(p: Proto, q: Proto) {
    p.sessionID != q.sessionID && !(p.from == q.from && p.number == q.number)
  }

  predicate DistinctProtos(ps: seq<Proto>) {
    forall i, j :: 0 <= i < j < |ps| ==> Differ(ps[i], ps[j])
  }

  /** The proto-displays are some of those before, up to their credentials. */
  predicate FewerProtos(before: seq<Proto>, after: seq<Proto>) {
    DistinctProtos(after) && forall i :: 0 <= i < |after| ==> IsAmong(after[i], before)
  }

  lemma QuietKeeps(w: World, after: World, more: seq<Event>)
    requires Sessions(w) && IsQuiet(w, after, more) && FewerProtos(w.protos, after.protos)
    ensures Sessions(after)
  {
    hide Granted, Ids, UniqueIds;
    forall p | p in after.protos
      ensures 0 < p.sessionID <= w.globalSessionID && p.sessionID !in Ids(after.dm.displays)
      ensures after.dm.alive ==> Granted(after.log, |after.log|, p.sessionID, p.from, p.number)
      ensures forall i :: 0 <= i < |after.log| ==> !IsStart(after.log[i], p.sessionID)
    {
      var i :| 0 <= i < |after.protos| && after.protos[i] == p;
      assert IsAmong(p, w.protos);
      var k :| 0 <= k < |w.protos| && SameSlot(p, w.protos[k]);
      assert w.protos[k] in w.protos;
      if after.dm.alive {
        GrantedStays(w.log, more, |w.log|, |after.log|, p.sessionID, p.from, p.number);
      }
    }
    forall i | 0 <= i < |after.log| && after.log[i].Started?
      ensures i < |w.log| && Granted(after.log, i, after.log[i].id, after.log[i].from, after.log[i].number)
    {
      assert i < |w.log|;
      GrantedStays(w.log, more, i, i, w.log[i].id, w.log[i].from, w.log[i].number);
    }
  }

  lemma DisposeFewer(ps: seq<Proto>, i: nat)
    requires i < |ps| && DistinctProtos(ps)
    ensures FewerProtos(ps, Dispose(ps, i)) && |Dispose(ps, i)| == |ps| - 1
    ensures forall k :: 0 <= k < |ps| - 1 ==> Differ(Dispose(ps, i)[k], ps[i])
  {
    var after := Dispose(ps, i);
    forall k | 0 <= k < |after| ensures IsAmong(after[k], ps) && Differ(after[k], ps[i]) {
      var l := if k < i then k else k + 1;
      assert after[k] == ps[l] && SameSlot(after[k], ps[l]);
      assert Differ(ps[if l < i then l else i], ps[if l < i then i else l]);
    }
    forall k, l | 0 <= k < l < |after| ensures Differ(after[k], after[l]) {
      assert Differ(ps[if k < i then k else k + 1], ps[if l < i then l else l + 1]);
    }
  }

  lemma {:induction false} TimeoutFewer(ps: seq<Proto>, now: int)
    requires DistinctProtos(ps)
    ensures FewerProtos(ps, TimeoutProtos(ps, now))
    ensures forall i :: 0 <= i < |TimeoutProtos(ps, now)| ==> TimeoutProtos(ps, now)[i] in ps
  {
    if ps != [] {
      var rest, after := TimeoutProtos(ps[1..], now), TimeoutProtos(ps, now);
      assert DistinctProtos(ps[1..]);
      TimeoutFewer(ps[1..], now);
      forall i | 0 <= i < |rest| ensures IsAmong(rest[i], ps) && Differ(ps[0], rest[i]) {
        assert IsAmong(rest[i], ps[1..]);
        var k :| 0 <= k < |ps[1..]| && SameSlot(rest[i], ps[1..][k]);
        assert SameSlot(rest[i], ps[k + 1]) && Differ(ps[0], ps[k + 1]);
      }
      assert IsAmong(ps[0], ps) by {
        assert SameSlot(ps[0], ps[0]);
      }
    }
  }

  lemma CredentialsFewer(ps: seq<Proto>, i: nat, c: XdmAuth.Credentials)
    requires i < |ps| && DistinctProtos(ps)
    ensures FewerProtos(ps, ps[i := ps[i].(credentials := c)])
  {
    var after := ps[i := ps[i].(credentials := c)];
    forall k | 0 <= k < |after| ensures IsAmong(after[k], ps) {
      assert SameSlot(after[k], ps[k]);
    }
    forall k, l | 0 <= k < l < |after| ensures Differ(after[k], after[l]) {
      assert Differ(ps[k], ps[l]);
    }
  }

  lemma ProtosThemselves(w: World)
    requires Sessions(w)
    ensures FewerProtos(w.protos, w.protos)
  {
    forall i | 0 <= i < |w.protos| ensures IsAmong(w.protos[i], w.protos) {
      assert SameSlot(w.protos[i], w.protos[i]);
    }
  }

  lemma SameDisplays(w: World)
    requires IdsInUse(w)
    ensures NoNewIds(w.dm.displays, w.dm.displays)
  {
  }

  lemma RepeatedRequestKeeps(w: World, env: Env, r: RequestPacket, random: Option<Bytes>, i: nat)
    requires Sessions(w) && i < |w.protos| && (random.Some? ==> |random.value| >= 16)
    ensures Sessions(Grant(w, env, r, random, i))
  {
    var after := Grant(w, env, r, random, i);
    SameDisplays(w);
    if Authorize(w.protos[i].credentials, env, r, random).TurnedDown? {
      DisposeFewer(w.protos, i);
    } else {
      CredentialsFewer(w.protos, i, after.protos[i].credentials);
    }
    hide Sessions, Authorize, FewerProtos, NoNewIds;
    assert after.log == w.log + after.log[|w.log|..];
    QuietKeeps(w, after, after.log[|w.log|..]);
  }

  /** A new proto-display in front of older ones, created and, if the manager lives, accepted by the last two events. */
  lemma NewProtoKeeps(without: World, after: World, log: seq<Event>)
    requires Sessions(without) && after.protos != [] && without == after.(protos := after.protos[1..])
    requires var p, n := after.protos[0], |log|;
             && p.sessionID == after.globalSessionID > 0 && p.sessionID !in Ids(after.dm.displays)
             && n < |after.log| && after.log[..n] == log && after.log[n] == Created(p.sessionID, p.from, p.number)
             && (after.dm.alive ==> |after.log| == n + 2 && IsAcceptance(after.log[n + 1], p.sessionID, p.from, p.number))
             && (forall i :: n <= i < |after.log| ==> !after.log[i].Started?)
             && (forall i :: 0 <= i < n ==> !IsStart(log[i], p.sessionID))
             && (forall j :: 0 <= j < |without.protos| ==> Differ(p, without.protos[j]))
    ensures Sessions(after)
  {
    var p, n := after.protos[0], |log|;
    assert after.dm.alive ==> Granted(after.log, |after.log|, p.sessionID, p.from, p.number);
    hide Granted, Ids, UniqueIds;
    forall i | 0 <= i < |after.log| ensures !IsStart(after.log[i], p.sessionID) {
      if i < n {
        assert after.log[i] == log[i];
      }
    }
    assert forall q :: q in after.protos <==> q == p || q in without.protos;
    forall i, j | 0 <= i < j < |after.protos| ensures Differ(after.protos[i], after.protos[j]) {
      if i > 0 {
        assert Differ(without.protos[i - 1], without.protos[j - 1]);
      }
    }
  }

  /** The rest of the proto-displays, with or without a new one, which was accepted if the manager lives. */
  predicate AddsProto(w: World, after: World, rest: seq<Proto>, from: Netaddr, number: nat) {
    var id, n := w.globalSessionID + 1, |w.log|;
    && after.dm == w.dm.(alive := after.dm.alive) && (after.dm.alive ==> w.dm.alive) && after.globalSessionID == id
    && n < |after.log| && after.log[..n] == w.log && after.log[n] == Created(id, from, number)
    && (forall i :: n <= i < |after.log| ==> !after.log[i].Started?)
    && (after.protos == rest
        || (&& |after.protos| == |rest| + 1 && after.protos[1..] == rest
            && after.protos[0].from == from && after.protos[0].number == number && after.protos[0].sessionID == id
            && (after.dm.alive ==> |after.log| == n + 2 && IsAcceptance(after.log[n + 1], id, from, number))))
  }

  /** What the second half of a request does: at most one event, no Started, and the proto-display goes or stays. */
  lemma GrantShape(w: World, env: Env, r: RequestPacket, random: Option<Bytes>, i: nat)
    requires i < |w.protos| && (random.Some? ==> |random.value| >= 16)
    ensures var after, p := Grant(w, env, r, random, i), w.protos[i];
            && after.dm == w.dm.(alive := after.dm.alive) && (after.dm.alive ==> w.dm.alive)
            && after.globalSessionID == w.globalSessionID
            && ((after.protos == Dispose(w.protos, i) && after.log == w.log + [Declined(r.from)])
                || (&& |after.protos| == |w.protos| && SameSlot(p, after.protos[i]) && after.protos == w.protos[i := after.protos[i]]
                    && ((!after.dm.alive && after.log == w.log)
                        || (&& |after.log| == |w.log| + 1 && after.log == w.log + [after.log[|w.log|]]
                            && IsAcceptance(after.log[|w.log|], p.sessionID, r.from, r.number)))))
  {
    hide Authorize;
  }

  /** What the first request for an address and number comes to: one more proto-display, or none. */
  lemma FirstRequestShape(w: World, env: Env, r: RequestPacket, now: int, random: Option<Bytes>)
    requires w.globalSessionID + 1 < CARD32_LIMIT && Admissible(env, r) && (random.Some? ==> |random.value| >= 16)
    ensures AddsProto(w, Grant(Create(w, env, r, now), env, r, random, 0), TimeoutProtos(w.protos, now), r.from, r.number)
  {
    hide Admissible, ConnectionOf, Grant, TimeoutProtos, Dispose, IsAcceptance;
    var made := Create(w, env, r, now);
    DisposeFirst(made.protos);
    GrantShape(made, env, r, random, 0);
    AcceptanceStartsNothing();
  }

  lemma DisposeFirst(ps: seq<Proto>)
    requires ps != []
    ensures Dispose(ps, 0) == ps[1..]
  {
  }

  lemma AcceptanceStartsNothing()
    ensures forall e, id, from, number :: IsAcceptance(e, id, from, number) ==> !e.Started?
  {
  }

  lemma FirstRequestKeeps(w: World, env: Env, r: RequestPacket, now: int, random: Option<Bytes>)
    requires Sessions(w) && w.globalSessionID + 1 < CARD32_LIMIT
    requires FindProto(w.protos, r.from, r.number) == |w.protos| && Admissible(env, r)
    requires random.Some? ==> |random.value| >= 16
    ensures Sessions(Grant(Create(w, env, r, now), env, r, random, 0))
  {
    hide *;
    NotFound(w.protos, r.from, r.number);
    SessionFacts(w);
    var after := Grant(Create(w, env, r, now), env, r, random, 0);
    var rest, id := TimeoutProtos(w.protos, now), w.globalSessionID + 1;
    FreshId(w, id);
    TimeoutFewer(w.protos, now);
    FirstRequestShape(w, env, r, now, random);
    OldProtosDiffer(w.protos, rest, id, r.from, r.number);
    FirstRequestComposes(w, after, rest, r.from, r.number);
  }

  lemma NotFound(ps: seq<Proto>, from: Netaddr, number: nat)
    requires FindProto(ps, from, number) == |ps|
    ensures forall q :: q in ps ==> !(q.from == from && q.number == number)
  {
  }

  lemma SessionFacts(w: World)
    requires Sessions(w)
    ensures DistinctProtos(w.protos) && NoNewIds(w.dm.displays, w.dm.displays) && w.globalSessionID < CARD32_LIMIT
  {
  }

  lemma FirstRequestComposes(w: World, after: World, rest: seq<Proto>, from: Netaddr, number: nat)
    requires Sessions(w) && w.globalSessionID + 1 < CARD32_LIMIT && NoNewIds(w.dm.displays, w.dm.displays)
    requires FewerProtos(w.protos, rest) && AddsProto(w, after, rest, from, number)
    requires var id := w.globalSessionID + 1;
             && id !in Ids(w.dm.displays)
             && (forall i :: 0 <= i < |w.log| ==> !IsStart(w.log[i], id))
             && (forall p: Proto, i :: 0 <= i < |rest| && p.sessionID == id && p.from == from && p.number == number ==> Differ(p, rest[i]))
    ensures Sessions(after)
  {
    hide *;
    AddsProtoMeans(w, after, rest, from, number);
    var more := after.log[|w.log|..];
    assert after.log == w.log + more;
    QuietAgain(w, after.(protos := rest), more);
    if after.protos != rest {
      NewProtoKeeps(after.(protos := rest), after, w.log);
    } else {
      assert after == after.(protos := rest);
    }
  }

  lemma AddsProtoMeans(w: World, after: World, rest: seq<Proto>, from: Netaddr, number: nat)
    requires AddsProto(w, after, rest, from, number)
    ensures var id, n := w.globalSessionID + 1, |w.log|;
            && after.dm == w.dm.(alive := after.dm.alive) && (after.dm.alive ==> w.dm.alive) && after.globalSessionID == id
            && n < |after.log| && after.log[..n] == w.log && after.log[n] == Created(id, from, number)
            && (forall i :: n <= i < |after.log| ==> !after.log[i].Started?)
            && (after.protos == rest
                || (&& |after.protos| == |rest| + 1 && after.protos[1..] == rest
                    && after.protos[0].from == from && after.protos[0].number == number && after.protos[0].sessionID == id
                    && (after.dm.alive ==> |after.log| == n + 2 && IsAcceptance(after.log[n + 1], id, from, number))))
  {
  }

  lemma QuietAgain(w: World, after: World, more: seq<Event>)
    requires Sessions(w) && after.log == w.log + more && (forall i :: 0 <= i < |more| ==> !more[i].Started?)
    requires w.globalSessionID <= after.globalSessionID < CARD32_LIMIT
    requires NoNewIds(w.dm.displays, after.dm.displays) && FewerProtos(w.protos, after.protos)
    requires after.dm.alive ==> w.dm.alive
    ensures Sessions(after)
  {
    hide Sessions, NoNewIds, FewerProtos;
    QuietKeeps(w, after, more);
  }

  lemma OldProtosDiffer(before: seq<Proto>, rest: seq<Proto>, id: nat, from: Netaddr, number: nat)
    requires forall i :: 0 <= i < |rest| ==> rest[i] in before
    requires forall q :: q in before ==> q.sessionID != id && !(q.from == from && q.number == number)
    ensures forall p: Proto, i :: 0 <= i < |rest| && p.sessionID == id && p.from == from && p.number == number ==> Differ(p, rest[i])
  {
  }

  /** An id that was not issued yet is not in use, and was not started. */
  lemma FreshId(w: World, id: nat)
    requires Sessions(w) && id > w.globalSessionID
    ensures id !in Ids(w.dm.displays)
    ensures forall q :: q in w.protos ==> q.sessionID != id
    ensures forall i :: 0 <= i < |w.log| ==> !IsStart(w.log[i], id)
  {
  }

  lemma RequestCounts(w: World, env: Env, r: RequestPacket, now: int, random: Option<Bytes>)
    requires random.Some? ==> |random.value| >= 16
    ensures Request(w, env, r, now, random).globalSessionID
         == w.globalSessionID + if FindProto(w.protos, r.from, r.number) == |w.protos| && Admissible(env, r) then 1 else 0
  {
    hide Admissible, Authorize;
  }

  lemma RequestKeeps(w: World, env: Env, r: RequestPacket, now: int, random: Option<Bytes>)
    requires Sessions(w) && (random.Some? ==> |random.value| >= 16)
    requires Request(w, env, r, now, random).globalSessionID < CARD32_LIMIT
    ensures Sessions(Request(w, env, r, now, random))
  {
    SessionFacts(w);
    RequestCounts(w, env, r, now, random);
    hide Sessions, FewerProtos, NoNewIds, Admissible, Overreads, ConnectionOf, Authorize, Grant, Create, DistinctProtos;
    var i := FindProto(w.protos, r.from, r.number);
    if i < |w.protos| {
      RepeatedRequestKeeps(w, env, r, random, i);
    } else if Admissible(env, r) {
      FirstRequestKeeps(w, env, r, now, random);
    } else {
      AppendKeeps(w, Request(w, env, r, now, random));
    }
  }

  /** Steps that leave proto-displays and displays alone and create and start nothing. */
  predicate Appends(w: World, after: World) {
    && after.protos == w.protos && after.globalSessionID == w.globalSessionID
    && after.dm == w.dm.(alive := after.dm.alive) && (after.dm.alive ==> w.dm.alive)
    && |w.log| <= |after.log| && after.log[..|w.log|] == w.log
    && forall k :: |w.log| <= k < |after.log| ==> !after.log[k].Started? && !after.log[k].Accepted? && !after.log[k].Created?
  }

  lemma AppendKeeps(w: World, after: World)
    requires Sessions(w) && Appends(w, after)
    ensures Sessions(after)
  {
    SessionFacts(w);
    ProtosThemselves(w);
    hide Sessions, NoNewIds, DistinctProtos, FewerProtos;
    assert after.log == w.log + after.log[|w.log|..];
    QuietAgain(w, after, after.log[|w.log|..]);
  }

  /** Adding the Started event of a proto-display that is gone, and its display. */
  lemma StartedKeeps(quiet: World, after: World, p: Proto)
    requires Sessions(quiet) && 0 < p.sessionID <= quiet.globalSessionID
    requires after.protos == quiet.protos && after.globalSessionID == quiet.globalSessionID
    requires UniqueIds(after.dm.displays) && Ids(after.dm.displays) <= Ids(quiet.dm.displays) + {p.sessionID}
    requires forall q :: q in quiet.protos ==> q.sessionID != p.sessionID
    requires forall i :: 0 <= i < |quiet.log| ==> !IsStart(quiet.log[i], p.sessionID)
    requires Granted(quiet.log, |quiet.log|, p.sessionID, p.from, p.number) && (after.dm.alive ==> quiet.dm.alive)
    requires |after.log| == |quiet.log| + 1 && after.log[..|quiet.log|] == quiet.log
    requires var e := after.log[|quiet.log|]; IsStart(e, p.sessionID) && e.from == p.from && e.number == p.number
    ensures Sessions(after)
  {
    hide Granted, Ids, UniqueIds;
    var n, e := |quiet.log|, after.log[|quiet.log|];
    assert after.log == quiet.log + [e];
    forall i | 0 <= i < |after.log| && after.log[i].Started?
      ensures Granted(after.log, i, after.log[i].id, after.log[i].from, after.log[i].number)
    {
      GrantedStays(quiet.log, [e], i, i, after.log[i].id, after.log[i].from, after.log[i].number);
    }
    forall q | q in after.protos && after.dm.alive ensures Granted(after.log, n + 1, q.sessionID, q.from, q.number) {
      GrantedStays(quiet.log, [e], n, n + 1, q.sessionID, q.from, q.number);
    }
  }

  lemma StartShape(w: World, env: Env, from: Netaddr, number: nat, id: nat, displayClass: string, now: int,
          o: Displays.Outcome, name: string, link: Displays.Link)
    requires Starts(w, env, from, number, id)
    requires var i, c := FindProto(w.protos, from, number), ClientOf(from);
             && name == env.displayName(w.protos[i].connection, from, number).value
             && link == Displays.Link(id, from, number, UsesChooser(w, env, c, now), w.protos[i].credentials.fileAuth)
    ensures var after, i := StartSession(w, env, from, number, id, displayClass, now, o), FindProto(w.protos, from, number);
            && after.dm == Displays.TakeOver(w.dm, name, ClassOf(displayClass), link, env.resources, o)
            && after.protos == Dispose(w.protos, i) && after.globalSessionID == w.globalSessionID
            && |w.log| < |after.log| <= |w.log| + 2 && after.log[..|w.log|] == w.log
            && (forall k :: |w.log| <= k < |after.log| - 1 ==> !after.log[k].Started? && !after.log[k].Created?)
            && after.log[|after.log| - 1] == Started(id, from, number, link.useChooser, link.auth)
  {
    hide Displays.TakeOver, ChooserEntry;
  }

  lemma StartKeeps(w: World, env: Env, from: Netaddr, number: nat, id: nat, displayClass: string, now: int,
          o: Displays.Outcome)
    requires Sessions(w) && w.dm.alive && Starts(w, env, from, number, id)
    ensures Sessions(StartSession(w, env, from, number, id, displayClass, now, o))
    ensures StartSession(w, env, from, number, id, displayClass, now, o).globalSessionID == w.globalSessionID
  {
    hide Sessions, IdsInUse, StartSession, Starts, UsesChooser, Dispose, FindProto, Granted, UniqueIds, Ids, NoNewIds,
      FewerProtos, DistinctProtos, Differ, ClassOf, Displays.TakeOver;
    var i := StartFacts(w, env, from, number, id);
    var p, c := w.protos[i], ClientOf(from);
    var name := env.displayName(p.connection, from, number).value;
    var link := Displays.Link(id, from, number, UsesChooser(w, env, c, now), p.credentials.fileAuth);
    StartShape(w, env, from, number, id, displayClass, now, o, name, link);
    TakeOverIds(w.dm, name, ClassOf(displayClass), link, env.resources, o);
    SameDisplays(w);
    DisposeFewer(w.protos, i);
    var after := StartSession(w, env, from, number, id, displayClass, now, o);
    var n := |after.log| - 1;
    var more := after.log[|w.log|..n];
    assert after.log[..n] == w.log + more;
    var quiet := w.(protos := Dispose(w.protos, i), log := after.log[..n]);
    QuietStart(w, quiet, more, id);
    GrantedStays(w.log, more, |w.log|, n, id, from, number);
    OthersDiffer(quiet.protos, p);
    StartedKeeps(quiet, after, p);
  }

  lemma StartFacts(w: World, env: Env, from: Netaddr, number: nat, id: nat) returns (i: nat)
    requires Sessions(w) && w.dm.alive && Starts(w, env, from, number, id)
    ensures IdsInUse(w) && UniqueIds(w.dm.displays) && DistinctProtos(w.protos)
    ensures i == FindProto(w.protos, from, number) < |w.protos|
    ensures var p := w.protos[i]; p in w.protos && p.from == from && p.number == number && p.sessionID == id
    ensures env.displayName(w.protos[i].connection, from, number).Some?
    ensures Granted(w.log, |w.log|, id, from, number) && 0 < id <= w.globalSessionID && id !in Ids(w.dm.displays)
    ensures forall k :: 0 <= k < |w.log| ==> !IsStart(w.log[k], id)
  {
    hide Granted, Ids, UniqueIds, Differ, ChooserOverruns, IsStart;
    i := FindProto(w.protos, from, number);
    assert w.protos[i] in w.protos;
  }

  lemma QuietStart(w: World, quiet: World, more: seq<Event>, id: nat)
    requires Sessions(w) && quiet.log == w.log + more && (forall i :: 0 <= i < |more| ==> !more[i].Started?)
    requires quiet.globalSessionID == w.globalSessionID && quiet.dm == w.dm && FewerProtos(w.protos, quiet.protos)
    requires forall k :: 0 <= k < |w.log| ==> !IsStart(w.log[k], id)
    ensures Sessions(quiet) && forall k :: 0 <= k < |quiet.log| ==> !IsStart(quiet.log[k], id)
  {
    SameDisplays(w);
    hide Sessions, FewerProtos, NoNewIds;
    QuietKeeps(w, quiet, more);
  }

  lemma OthersDiffer(ps: seq<Proto>, p: Proto)
    requires forall k :: 0 <= k < |ps| ==> Differ(ps[k], p)
    ensures forall q :: q in ps ==> q.sessionID != p.sessionID
  {
    forall q | q in ps ensures q.sessionID != p.sessionID {
      var k :| 0 <= k < |ps| && ps[k] == q;
      assert Differ(ps[k], p);
    }
  }

  lemma RespondAppends(w: World, env: Env, kind: QueryKind, from: Netaddr)
    ensures Appends(w, Respond(w, env, kind, from))
  {
    hide Acceptable, AcceptOverruns;
  }

  lemma AppendsThen(w: World, mid: World, after: World)
    requires Appends(w, mid) && Appends(mid, after)
    ensures Appends(w, after)
  {
    assert after.log[..|mid.log|][..|w.log|] == after.log[..|w.log|];
    assert forall k :: |w.log| <= k < |mid.log| ==> after.log[k] == after.log[..|mid.log|][k];
  }

  lemma ConsultAppends(w: World, env: Env, c: Client, now: int)
    ensures Appends(w, Consult(w, env, c, now))
  {
    hide ChooserEntry;
  }

  lemma ForwardsAppend(w: World, env: Env, from: Netaddr, calls: seq<AccessRules.Called>)
    ensures Appends(w, w.(log := w.log + Forwards(env, from, calls)))
  {
    hide Forwards;
  }

  lemma DyingAppends(w: World)
    ensures Appends(w, Die(w))
  {
  }

  lemma RespondIndirectAppends(w: World, env: Env, from: Netaddr, now: int)
    ensures Appends(w, RespondIndirect(w, env, from, now))
  {
    hide Appends, Respond, Consult, Forwards, IndirectTargets, IndirectOverruns, Die;
    var c := ClientOf(from);
    var targets := IndirectTargets(env.db, env.isLocal, c, env.hostname(c), Choices.Lookup(w.choices, c, now, w.timeout).0);
    var asked := Consult(w, env, c, now);
    var sent := asked.(log := asked.log + Forwards(env, from, targets.calls));
    DyingAppends(w);
    ConsultAppends(w, env, c, now);
    ForwardsAppend(asked, env, from, targets.calls);
    AppendsThen(w, asked, sent);
    RespondAppends(sent, env, IndirectQuery, from);
    AppendsThen(w, sent, Respond(sent, env, IndirectQuery, from));
  }

  lemma ManageKeeps(w: World, env: Env, from: Netaddr, number: nat, id: nat, displayClass: string, now: int,
          o: Displays.Outcome)
    requires Sessions(w) && w.dm.alive
    ensures var after := Manage(w, env, from, number, id, displayClass, now, o);
            Sessions(after) && after.globalSessionID == w.globalSessionID
  {
    hide Sessions, StartSession, Starts, IsDuplicate, IsNamed;
    if Starts(w, env, from, number, id) {
      StartKeeps(w, env, from, number, id, displayClass, now, o);
      StartsMeans(w, env, from, number, id);
    } else {
      AppendKeeps(w, Manage(w, env, from, number, id, displayClass, now, o));
    }
  }

  lemma StartsMeans(w: World, env: Env, from: Netaddr, number: nat, id: nat)
    requires Starts(w, env, from, number, id)
    ensures var i := FindProto(w.protos, from, number); i < |w.protos| && w.protos[i].sessionID == id
  {
  }

  lemma RanKeeps(w: World, step: Displays.Step)
    requires Sessions(w) && !step.TakenOver?
    ensures Sessions(w.(dm := Displays.Next(w.dm, step)))
  {
    ProtosThemselves(w);
    StepIds(w.dm, step);
    assert w.globalSessionID < CARD32_LIMIT && (Displays.Next(w.dm, step).alive ==> w.dm.alive);
    hide Sessions, NoNewIds, FewerProtos, Displays.Next;
    assert w.log + [] == w.log;
    QuietAgain(w, w.(dm := Displays.Next(w.dm, step)), []);
  }

  /** Every step, whatever packet comes, keeps the session ids in order. */
  lemma StepKeepsSessions(w: World, step: Step)
    requires Possible(step) && Sessions(w) && Next(w, step).globalSessionID < CARD32_LIMIT
    ensures Sessions(Next(w, step))
  {
    hide Sessions, Request, Manage, Respond, RespondIndirect, Displays.Next;
    if !w.dm.alive {
      return;
    }
    match step
    case Queried(env, kind, from) =>
      RespondAppends(w, env, kind, from);
      AppendKeeps(w, Next(w, step));
    case QueriedIndirectly(env, from, now) =>
      RespondIndirectAppends(w, env, from, now);
      AppendKeeps(w, Next(w, step));
    case Requested(env, packet, now, random) => RequestKeeps(w, env, packet, now, random);
    case ManageCame(env, from, number, id, displayClass, now, o) => ManageKeeps(w, env, from, number, id, displayClass, now, o);
    case KeepAliveCame(from, number, id) => AppendKeeps(w, Next(w, step));
    case ChooserReplied(c, choice, now) => AppendKeeps(w, Next(w, step));
    case Ran(s) => RanKeeps(w, s);
  }

  lemma CounterGrows(w: World, step: Step)
    requires Possible(step)
    ensures w.globalSessionID <= Next(w, step).globalSessionID <= w.globalSessionID + 1
  {
    hide Request, Respond, RespondIndirect, Displays.Next, Displays.TakeOver, Starts, IsDuplicate, ChooserEntry;
    match step
    case Queried(env, kind, from) => RespondAppends(w, env, kind, from);
    case QueriedIndirectly(env, from, now) => RespondIndirectAppends(w, env, from, now);
    case Requested(env, packet, now, random) => RequestCounts(w, env, packet, now, random);
    case _ =>
  }

  lemma {:induction false} CounterNeverFalls(w: World, steps: seq<Step>)
    requires AllPossible(steps)
    ensures w.globalSessionID <= Run(w, steps).globalSessionID
    decreases steps
  {
    if steps != [] {
      CounterGrows(w, steps[0]);
      CounterNeverFalls(Next(w, steps[0]), steps[1..]);
    }
  }

  lemma {:induction false} RunKeepsSessions(w: World, steps: seq<Step>)
    requires AllPossible(steps) && Sessions(w) && Run(w, steps).globalSessionID < CARD32_LIMIT
    ensures Sessions(Run(w, steps))
    decreases steps
  {
    if steps != [] {
      CounterNeverFalls(Next(w, steps[0]), steps[1..]);
      StepKeepsSessions(w, steps[0]);
      RunKeepsSessions(Next(w, steps[0]), steps[1..]);
    }
  }

  // ---------------------------------------------------------------- what it comes to

  const IDS_BEFORE_WRAP: nat := 3_770_695_295

  /**
   From the start of the manager until 3,770,695,295 ids were issued: ids of proto-displays and of
   managed displays are nonzero and pairwise distinct; every session was started once, after its id
   was issued and accepted for the same address and display number.
   */
  lemma SessionIdsAreSound(time: nat, timeout: int, steps: seq<Step>)
    requires AllPossible(steps)
    requires Run(Init(time, timeout), steps).globalSessionID - InitSessionID(time) <= IDS_BEFORE_WRAP
    ensures var w := Run(Init(time, timeout), steps);
            && UniqueIds(w.dm.displays)
            && (forall p :: p in w.protos ==> p.sessionID != 0 && p.sessionID !in Ids(w.dm.displays))
            && DistinctProtos(w.protos)
            && (forall i :: 0 <= i < |w.log| && w.log[i].Started? ==>
                  Granted(w.log, i, w.log[i].id, w.log[i].from, w.log[i].number))
            && (forall i, j :: 0 <= i < j < |w.log| && w.log[i].Started? && w.log[j].Started? ==> w.log[i].id != w.log[j].id)
  {
    RunKeepsSessions(Init(time, timeout), steps);
  }

  /** A session was created, and by a REQUEST of its address and number whose sender could be managed. */
  predicate IsCreatedBy(log: seq<Event>, j: int, step: Step, id: nat, from: Netaddr, number: nat) {
    0 <= j < |log| && log[j] == Created(id, from, number) && IsAdmitted(step, log[j])
  }

  /** The sender offers an internet, IPv6 or local connection, by the numbers X has for them, or is on this host. */
  predicate CanBeReached(env: Env, r: RequestPacket) {
    || (exists k :: 0 <= k < |r.connectionTypes| && k < |r.connectionAddresses| && r.connectionTypes[k] in {0, 6, 256})
    || env.isLocal(ClientOf(r.from))
  }

  /** The sender has an address, an entry lets it in unless there is no access file, and it can be reached. */
  predicate MayBeManaged(env: Env, r: RequestPacket) {
    var c := ClientOf(r.from);
    Family(r.from) >= 0 && (env.noFile || IsLetIn(env.db, c, env.hostname(c), OnRequest)) && CanBeReached(env, r)
  }

  /** Whoever may be managed is admitted, and nobody else is. */
  lemma AdmissibleExactly(env: Env, r: RequestPacket)
    ensures Admissible(env, r) || !Overreads(env, r) ==> (Admissible(env, r) <==> MayBeManaged(env, r))
  {
    var c := ClientOf(r.from);
    AcceptableExactly(env.db, env.noFile, c, env.hostname(c), OnRequest);
    ReachedExactly(env, r);
    hide Acceptable, IsLetIn, ConnectionOf, CanBeReached;
  }

  lemma ReachedExactly(env: Env, r: RequestPacket)
    ensures !ConnectionOf(env, r).Overrun? ==> (ConnectionOf(env, r).Selected? <==> CanBeReached(env, r))
  {
    var types, addresses := r.connectionTypes, r.connectionAddresses;
    var offered := Connections(types, addresses);
    if k :| 0 <= k < |types| && k < |addresses| && types[k] in {0, 6, 256} {
      assert offered[k] in offered && Usable(offered[k]);
    }
    if c :| c in offered && Usable(c) {
      var k :| 0 <= k < |offered| && offered[k] == c;
      assert types[k] in {0, 6, 256};
    }
  }

  /** The step is a REQUEST of that address and number whose sender may be managed. */
  predicate IsAdmitted(step: Step, e: Event) {
    e.Created? && step.Requested? && MayBeManaged(step.env, step.packet) && e.from == step.packet.from && e.number == step.packet.number
  }

  /** The log grows, by no creation but one the step is the admitted REQUEST of. */
  predicate LogsAdmitted(log: seq<Event>, after: seq<Event>, step: Step) {
    && |log| <= |after| && after[..|log|] == log
    && forall i :: |log| <= i < |after| && after[i].Created? ==> IsAdmitted(step, after[i])
  }

  lemma RequestLogs(w: World, step: Step)
    requires Possible(step) && step.Requested?
    ensures LogsAdmitted(w.log, Request(w, step.env, step.packet, step.now, step.random).log, step)
  {
    hide Grant, Admissible, MayBeManaged, Overreads, ConnectionOf, TimeoutProtos, Dispose;
    var i := FindProto(w.protos, step.packet.from, step.packet.number);
    if i < |w.protos| {
      GrantShape(w, step.env, step.packet, step.random, i);
    } else if Admissible(step.env, step.packet) {
      AdmissibleExactly(step.env, step.packet);
      GrantShape(Create(w, step.env, step.packet, step.now), step.env, step.packet, step.random, 0);
    }
  }

  lemma ManageLogs(w: World, step: Step)
    requires step.ManageCame?
    ensures var after := Manage(w, step.env, step.from, step.number, step.id, step.displayClass, step.now, step.outcome);
            LogsAdmitted(w.log, after.log, step)
  {
    hide StartSession, Starts, IsDuplicate, IsNamed, UsesChooser;
    if Starts(w, step.env, step.from, step.number, step.id) {
      StartsMeans(w, step.env, step.from, step.number, step.id);
      StartLogs(w, step);
    }
  }

  lemma StartLogs(w: World, step: Step)
    requires step.ManageCame? && Starts(w, step.env, step.from, step.number, step.id)
    ensures var after := StartSession(w, step.env, step.from, step.number, step.id, step.displayClass, step.now, step.outcome);
            LogsAdmitted(w.log, after.log, step)
  {
    var p := w.protos[FindProto(w.protos, step.from, step.number)];
    hide StartSession, Starts, UsesChooser;
    var link := Displays.Link(step.id, step.from, step.number, UsesChooser(w, step.env, ClientOf(step.from), step.now),
                              p.credentials.fileAuth);
    StartShape(w, step.env, step.from, step.number, step.id, step.displayClass, step.now, step.outcome,
               step.env.displayName(p.connection, step.from, step.number).value, link);
  }

  lemma StepLogs(w: World, step: Step)
    requires Possible(step)
    ensures LogsAdmitted(w.log, Next(w, step).log, step)
  {
    hide Request, Manage, Respond, RespondIndirect, Displays.Next, IsAdmitted;
    if w.dm.alive {
      match step
      case Queried(env, kind, from) => RespondAppends(w, env, kind, from);
      case QueriedIndirectly(env, from, now) => RespondIndirectAppends(w, env, from, now);
      case Requested(_, _, _, _) => RequestLogs(w, step);
      case ManageCame(_, _, _, _, _, _, _) => ManageLogs(w, step);
      case _ =>
    }
  }

  lemma {:induction false} LogOfRunGrows(w: World, steps: seq<Step>)
    requires AllPossible(steps)
    ensures |w.log| <= |Run(w, steps).log| && Run(w, steps).log[..|w.log|] == w.log
    decreases steps
  {
    if steps != [] {
      var mid := Next(w, steps[0]);
      StepLogs(w, steps[0]);
      LogOfRunGrows(mid, steps[1..]);
      hide Next;
      assert Run(w, steps).log[..|mid.log|][..|w.log|] == w.log;
    }
  }

  /** In every run, an id is only created for a sender that an access entry let in when its REQUEST came. */
  lemma {:induction false} CreationsAreChecked(w: World, steps: seq<Step>, i: nat)
    requires AllPossible(steps) && |w.log| <= i < |Run(w, steps).log| && Run(w, steps).log[i].Created?
    ensures exists k :: 0 <= k < |steps| && IsAdmitted(steps[k], Run(w, steps).log[i])
    decreases steps
  {
    if steps == [] {
      assert false;
    } else {
      var mid, e := Next(w, steps[0]), Run(w, steps).log[i];
      LogOfRunGrows(mid, steps[1..]);
      hide Next, IsAdmitted;
      if i < |mid.log| {
        assert Run(w, steps).log[..|mid.log|][i] == e;
        StepLogs(w, steps[0]);
      } else {
        CreationsAreChecked(mid, steps[1..], i);
        var k :| 0 <= k < |steps[1..]| && IsAdmitted(steps[1..][k], e);
        assert steps[k + 1] == steps[1..][k];
      }
    }
  }

  /**
   No session without leave: in every run from the start, until the ids wrap, a session that was
   started has an id that was created before by a REQUEST of the same address and number, which an
   access entry let in, and that was then accepted.
   */
  lemma StartsAreChecked(time: nat, timeout: int, steps: seq<Step>, i: nat)
    requires AllPossible(steps)
    requires Run(Init(time, timeout), steps).globalSessionID - InitSessionID(time) <= IDS_BEFORE_WRAP
    requires var log := Run(Init(time, timeout), steps).log; i < |log| && log[i].Started?
    ensures var log := Run(Init(time, timeout), steps).log; var e := log[i];
            exists j, n, k :: 0 <= j < n < i && 0 <= k < |steps|
              && IsCreatedBy(log, j, steps[k], e.id, e.from, e.number) && IsAcceptance(log[n], e.id, e.from, e.number)
  {
    SessionIdsAreSound(time, timeout, steps);
    var w := Run(Init(time, timeout), steps);
    var e := w.log[i];
    hide Run, IsAdmitted;
    assert Granted(w.log, i, e.id, e.from, e.number);
    var j, n :| 0 <= j < n < i && w.log[j] == Created(e.id, e.from, e.number) && IsAcceptance(w.log[n], e.id, e.from, e.number);
    CreationsAreChecked(Init(time, timeout), steps, j);
    var k :| 0 <= k < |steps| && IsAdmitted(steps[k], w.log[j]);
    assert IsCreatedBy(w.log, j, steps[k], e.id, e.from, e.number);
  }

  // ---------------------------------------------------------------- ids of different managers

  lemma RequestCreates(w: World, env: Env, r: RequestPacket, now: int, random: Option<Bytes>)
    requires (random.Some? ==> |random.value| >= 16) && Request(w, env, r, now, random).globalSessionID < CARD32_LIMIT
    ensures var after := Request(w, env, r, now, random);
            forall i :: |w.log| <= i < |after.log| && after.log[i].Created? ==>
              w.globalSessionID < after.log[i].id == after.globalSessionID
  {
    hide Grant, Admissible, Overreads, ConnectionOf, TimeoutProtos, Dispose;
    var i := FindProto(w.protos, r.from, r.number);
    if i < |w.protos| {
      GrantShape(w, env, r, random, i);
    } else if Admissible(env, r) {
      GrantShape(Create(w, env, r, now), env, r, random, 0);
    }
  }

  lemma StepCreates(w: World, step: Step)
    requires Possible(step) && Next(w, step).globalSessionID < CARD32_LIMIT
    ensures var after := Next(w, step);
            forall i :: |w.log| <= i < |after.log| && after.log[i].Created? ==>
              w.globalSessionID < after.log[i].id == after.globalSessionID
  {
    StepLogs(w, step);
    hide Request, Respond, RespondIndirect, Manage, Displays.Next;
    if step.Requested? && w.dm.alive {
      RequestCreates(w, step.env, step.packet, step.now, step.random);
    }
  }

  /** Ids are issued in order, above the first one. */
  lemma {:induction false} IdsAreIssuedInOrder(w: World, steps: seq<Step>, i: nat)
    requires AllPossible(steps) && Run(w, steps).globalSessionID < CARD32_LIMIT
    requires |w.log| <= i < |Run(w, steps).log| && Run(w, steps).log[i].Created?
    ensures w.globalSessionID < Run(w, steps).log[i].id <= Run(w, steps).globalSessionID
    decreases steps
  {
    hide Next;
    if steps == [] {
      assert false;
    } else {
      var mid := Next(w, steps[0]);
      CounterNeverFalls(mid, steps[1..]);
      CounterGrows(w, steps[0]);
      LogOfRunGrows(mid, steps[1..]);
      if i < |mid.log| {
        assert Run(w, steps).log[..|mid.log|][i] == Run(w, steps).log[i];
        StepCreates(w, steps[0]);
      } else {
        IdsAreIssuedInOrder(mid, steps[1..], i);
      }
    }
  }

  /**
   What the first id is for: two managers started at different seconds within some nine hours issue no id twice
   between them, as long as neither issues more than 16000.
   */
  lemma RestartsIssueOtherIds(time: nat, timeout: int, steps: seq<Step>, i: nat,
                              later: nat, other: int, more: seq<Step>, j: nat)
    requires time < later < time + 0x8000 && AllPossible(steps) && AllPossible(more)
    requires Run(Init(time, timeout), steps).globalSessionID <= InitSessionID(time) + 16000
    requires Run(Init(later, other), more).globalSessionID <= InitSessionID(later) + 16000
    requires i < |Run(Init(time, timeout), steps).log| && Run(Init(time, timeout), steps).log[i].Created?
    requires j < |Run(Init(later, other), more).log| && Run(Init(later, other), more).log[j].Created?
    ensures Run(Init(time, timeout), steps).log[i].id != Run(Init(later, other), more).log[j].id
  {
    IdsAreIssuedInOrder(Init(time, timeout), steps, i);
    IdsAreIssuedInOrder(Init(later, other), more, j);
    hide Run;
    FirstIdsAreApart(time, later);
  }

  lemma FirstIdsAreApart(time: nat, later: nat)
    requires time < later < time + 0x8000
    ensures InitSessionID(time) + 16000 <= InitSessionID(later) || InitSessionID(later) + 16000 <= InitSessionID(time)
  {
    var a, b := time % 0x8000, later % 0x8000;
    assert a != b;
    assert a < b ==> (b - a - 1) * 16000 >= 0;
    assert b < a ==> (a - b - 1) * 16000 >= 0;
  }

  // ---------------------------------------------------------------- KEEPALIVE

  predicate RunsWithId(d: Displays.Display, id: nat) {
    d.link.sessionID == id && d.status == Displays.Running
  }

  lemma KeepAliveFinds(w: World, from: Netaddr, number: nat, id: nat)
    requires UniqueIds(w.dm.displays) && id != 0
    ensures var after := KeepAlive(w, from, number, id);
            && |after.log| == |w.log| + 1 && after == w.(log := w.log + [after.log[|w.log|]])
            && after.log[|w.log|].Alive? && after.log[|w.log|].to == from
            && (after.log[|w.log|].running <==> exists i :: 0 <= i < |w.dm.displays| && RunsWithId(w.dm.displays[i], id))
  {
    var ds, k := w.dm.displays, FindBySessionID(w.dm.displays, id);
    if i :| 0 <= i < |ds| && RunsWithId(ds[i], id) {
      assert k <= i;
    }
    if k < |ds| && ds[k].status == Displays.Running {
      assert RunsWithId(ds[k], id);
    }
  }

  /**
   After any run that the manager lived through, for a nonzero session id, KEEPALIVE answers running
   exactly when a display with that id is on the list and running; it changes nothing else.
   */
  lemma KeepAliveExactly(time: nat, timeout: int, steps: seq<Step>, from: Netaddr, number: nat, id: nat)
    requires AllPossible(steps) && id != 0 && Run(Init(time, timeout), steps).dm.alive
    requires Run(Init(time, timeout), steps).globalSessionID - InitSessionID(time) <= IDS_BEFORE_WRAP
    ensures var w := Run(Init(time, timeout), steps);
            var after := Next(w, KeepAliveCame(from, number, id));
            && |after.log| == |w.log| + 1 && after == w.(log := w.log + [after.log[|w.log|]])
            && after.log[|w.log|].Alive? && after.log[|w.log|].to == from
            && (after.log[|w.log|].running <==> exists i :: 0 <= i < |w.dm.displays| && RunsWithId(w.dm.displays[i], id))
  {
    SessionIdsAreSound(time, timeout, steps);
    hide Run, KeepAlive;
    KeepAliveFinds(Run(Init(time, timeout), steps), from, number, id);
  }
}
