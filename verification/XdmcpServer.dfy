/** The packet handlers as the code runs them, each proved against `Xdmcp`. */
module XdmcpServer {
  import opened Options
  import opened Network
  import opened Choices
  import AccessRules
  import opened AccessQueries
  import opened XdmAuth
  import Displays
  import opened Manager
  import Xdmcp

  function ProtoValue(p: ProtoDisplay): Xdmcp.Proto
    reads p`key, p`authenticationData, p`fileAuthorization, p`xdmcpAuthorization
  {
    Xdmcp.Proto(p.from, p.number, p.date, p.connection, p.sessionID, p.Value())
  }

  function ProtoValues(ps: seq<ProtoDisplay>): (r: seq<Xdmcp.Proto>)
    reads ps
    ensures |r| == |ps|
  {
    seq(|ps|, i requires 0 <= i < |ps| reads ps => ProtoValue(ps[i]))
  }

  function ProtoAt(ps: seq<ProtoDisplay>, i: nat): ProtoDisplay? {
    if i < |ps| then ps[i] else null
  }

  /** The proto-displays from `head` on are exactly these, each pointing at the next. */
  predicate ProtosLinked(head: ProtoDisplay?, ps: seq<ProtoDisplay>)
    reads ps`next
  {
    && head == ProtoAt(ps, 0)
    && (forall i :: 0 <= i < |ps| ==> ps[i].next == ProtoAt(ps, i + 1))
    && (forall i, j :: 0 <= i < j < |ps| ==> ps[i] != ps[j])
  }

  /** The static list of proto-displays of xdm/protodpy.c. */
  class ProtoDisplays {
    var protoDisplays: ProtoDisplay?
    ghost var spine: seq<ProtoDisplay>

    ghost predicate Valid()
      reads this, spine`next
    {
      ProtosLinked(protoDisplays, spine)
    }

    ghost function View(): seq<Xdmcp.Proto>
      reads this, spine
    {
      ProtoValues(spine)
    }

    ghost function Repr(): set<ProtoDisplay>
      reads this
    {
      set p | p in spine
    }

    constructor ()
      ensures Valid() && View() == [] && spine == []
    {
      protoDisplays := null;
      spine := [];
    }

    method FindProtoDisplay(from: Netaddr, number: nat) returns (p: ProtoDisplay?, ghost i: nat)
      requires Valid()
      ensures i == Xdmcp.FindProto(View(), from, number) && p == ProtoAt(spine, i)
    {
      p, i := protoDisplays, 0;
      while p != null && !(p.number == number && p.from == from)
        invariant i <= |spine| && p == ProtoAt(spine, i)
        invariant Xdmcp.FindProto(View(), from, number) == i + Xdmcp.FindProto(View()[i..], from, number)
        decreases |spine| - i
      {
        p, i := p.next, i + 1;
      }
    }

    /** Unlinks a proto-display, found by a walk that keeps the one before it. It is freed: what it holds is not promised. */
    method DisposeProtoDisplay(gone: ProtoDisplay, ghost i: nat)
      requires Valid() && i < |spine| && spine[i] == gone
      modifies this, Repr()`next
      ensures Valid() && spine == old(spine)[..i] + old(spine)[i + 1..] && Repr() <= old(Repr())
      ensures View() == Xdmcp.Dispose(old(View()), i)
    {
      hide Valid;
      Unlink(gone, i);
      Unlinked(i);
      RestToVisit(old(spine), spine, i);
    }

    method Unlink(gone: ProtoDisplay, ghost i: nat)
      requires Valid() && i < |spine| && spine[i] == gone
      modifies this, Repr()`next
      ensures Valid() && spine == old(spine)[..i] + old(spine)[i + 1..]
    {
      hide Valid;
      var p, prev: ProtoDisplay? := protoDisplays, null;
      ghost var k := 0;
      ProtosAre(0, i);
      while p != null && p != gone
        modifies {}
        invariant k <= i && p == spine[k] && prev == (if k == 0 then null else spine[k - 1])
        decreases |spine| - k
      {
        ProtosAre(k, i);
        prev := p;
        p, k := p.next, k + 1;
      }
      ProtosAre(k, i);
      UnlinkAfter(prev, gone, i);
    }

    lemma ProtosAre(k: nat, i: nat)
      requires Valid() && k <= i < |spine|
      ensures protoDisplays == spine[0] && spine[k].next == ProtoAt(spine, k + 1) && (k < i ==> spine[k] != spine[i])
    {
    }

    method UnlinkAfter(prev: ProtoDisplay?, gone: ProtoDisplay, ghost i: nat)
      requires Valid() && i < |spine| && spine[i] == gone && prev == (if i == 0 then null else spine[i - 1])
      modifies this, Repr()`next
      ensures Valid() && spine == old(spine)[..i] + old(spine)[i + 1..]
    {
      hide ProtoAt;
      if prev != null {
        prev.next := gone.next;
      } else {
        protoDisplays := gone.next;
      }
      RestIsLinked(protoDisplays, spine, i);
      spine := spine[..i] + spine[i + 1..];
    }

    lemma RestIsLinked(head: ProtoDisplay?, ps: seq<ProtoDisplay>, i: nat)
      requires i < |ps| && forall j, k :: 0 <= j < k < |ps| ==> ps[j] != ps[k]
      requires head == ProtoAt(ps, if i == 0 then 1 else 0)
      requires forall j :: 0 <= j < |ps| && j != i ==> ps[j].next == ProtoAt(ps, if j + 1 == i then i + 1 else j + 1)
      ensures ProtosLinked(head, ps[..i] + ps[i + 1..])
    {
      hide ProtoAt;
      var rest := ps[..i] + ps[i + 1..];
      RestAt(ps, i, 0);
      forall j | 0 <= j < |rest| ensures rest[j].next == ProtoAt(rest, j + 1) {
        RestAt(ps, i, j);
        RestAt(ps, i, j + 1);
      }
      forall j, k | 0 <= j < k < |rest| ensures rest[j] != rest[k] {
        RestAt(ps, i, j);
        RestAt(ps, i, k);
      }
    }

    lemma RestAt(ps: seq<ProtoDisplay>, i: nat, j: nat)
      requires i < |ps|
      ensures var rest, k := ps[..i] + ps[i + 1..], if j < i then j else j + 1;
              ProtoAt(rest, j) == ProtoAt(ps, k) && (j < |rest| ==> k < |ps| && k != i && rest[j] == ps[k])
    {
    }

    twostate lemma Unlinked(i: nat)
      requires i < |old(spine)| && spine == old(spine)[..i] + old(spine)[i + 1..]
      requires forall j :: 0 <= j < |old(spine)| ==> ProtoValue(old(spine)[j]) == old(ProtoValue(spine[j]))
      ensures View() == Xdmcp.Dispose(old(View()), i)
    {
      var was := old(View());
      forall j | 0 <= j < |spine| ensures ProtoValue(spine[j]) == Xdmcp.Dispose(was, i)[j] {
        assert spine[j] == old(spine)[if j < i then j else j + 1];
      }
    }

    /** What is left to look at once the proto-display at `i` was, and was kept or disposed of. */
    lemma RestToVisit(before: seq<ProtoDisplay>, after: seq<ProtoDisplay>, i: nat)
      requires i < |before| && (after == before || after == before[..i] + before[i + 1..])
      ensures var k := if after == before then i + 1 else i; k <= |after| && ProtoAt(before, i + 1) == ProtoAt(after, k)
      ensures (set p | p in after) <= (set p | p in before)
    {
      assert forall j :: 0 <= j < |after| ==> after[j] in before;
    }

    /** One turn of the sweep: the next one is read first, since this one may be freed. */
    method TimeoutAndGoOn(p: ProtoDisplay, ghost i: nat, now: int) returns (next: ProtoDisplay?, ghost k: nat)
      requires Valid() && i < |spine| && spine[i] == p
      modifies this, Repr()`next
      ensures Valid() && Repr() <= old(Repr()) && k <= |spine| && next == ProtoAt(spine, k) && |spine| - k < |old(spine)| - i
      ensures View()[..k] + Xdmcp.TimeoutProtos(View()[k..], now)
           == old(View())[..i] + Xdmcp.TimeoutProtos(old(View())[i..], now)
    {
      hide Xdmcp.Dispose, Xdmcp.TimeoutProtos, Valid, ProtoAt;
      ProtosAre(i, i);
      assert View()[i].date == p.date;
      next := p.next;
      TimeoutOne(View(), i, now);
      k := i + 1;
      if p.date < Xdmcp.Date(now - Xdmcp.PROTO_TIMEOUT) {
        DisposeProtoDisplay(p, i);
        k := i;
      }
      RestToVisit(old(spine), spine, i);
    }

    method TimeoutProtoDisplays(now: int)
      requires Valid()
      modifies this, Repr()`next
      ensures Valid() && Repr() <= old(Repr()) && View() == Xdmcp.TimeoutProtos(old(View()), now)
    {
      var p := protoDisplays;
      ghost var i: nat := 0;
      assert p == ProtoAt(spine, 0) && View()[0..] == View() && View()[..0] + Xdmcp.TimeoutProtos(View(), now) == Xdmcp.TimeoutProtos(View(), now);
      hide Valid, ProtoValues;
      while p != null
        invariant Valid() && i <= |spine| && p == ProtoAt(spine, i) && Repr() <= old(Repr())
        invariant Xdmcp.TimeoutProtos(old(View()), now) == View()[..i] + Xdmcp.TimeoutProtos(View()[i..], now)
        decreases |spine| - i
      {
        p, i := TimeoutAndGoOn(p, i, now);
      }
      assert View()[..i] + [] == View();
    }

    lemma TimeoutOne(ps: seq<Xdmcp.Proto>, i: nat, now: int)
      requires i < |ps|
      ensures var all := ps[..i] + Xdmcp.TimeoutProtos(ps[i..], now);
              if Xdmcp.Expired(ps[i].date, now) then
                all == Xdmcp.Dispose(ps, i)[..i] + Xdmcp.TimeoutProtos(Xdmcp.Dispose(ps, i)[i..], now)
              else all == ps[..i + 1] + Xdmcp.TimeoutProtos(ps[i + 1..], now)
    {
      assert ps[i..][1..] == ps[i + 1..] && Xdmcp.Dispose(ps, i)[i..] == ps[i + 1..] && Xdmcp.Dispose(ps, i)[..i] == ps[..i];
      assert ps[..i] + ([ps[i]] + Xdmcp.TimeoutProtos(ps[i + 1..], now)) == ps[..i + 1] + Xdmcp.TimeoutProtos(ps[i + 1..], now);
    }

    method NewProtoDisplay(from: Netaddr, number: nat, now: int, connection: Client, sessionID: nat)
      returns (p: ProtoDisplay)
      requires Valid()
      modifies this, Repr()`next
      ensures Valid() && fresh(p) && spine != [] && spine[0] == p && fresh(Repr() - old(Repr()))
      ensures View() == [Xdmcp.Proto(from, number, Xdmcp.Date(now), connection, sessionID, NO_CREDENTIALS)]
                        + Xdmcp.TimeoutProtos(old(View()), now)
    {
      hide Valid, ProtoValues, Xdmcp.TimeoutProtos;
      TimeoutProtoDisplays(now);
      p := Prepend(from, number, Xdmcp.Date(now), connection, sessionID);
    }

    method Prepend(from: Netaddr, number: nat, date: nat, connection: Client, sessionID: nat) returns (p: ProtoDisplay)
      requires Valid()
      modifies this
      ensures Valid() && fresh(p) && spine == [p] + old(spine) && Repr() == old(Repr()) + {p}
      ensures View() == [Xdmcp.Proto(from, number, date, connection, sessionID, NO_CREDENTIALS)] + old(View())
    {
      hide ProtosLinked;
      p := new ProtoDisplay(from, number, date, connection, sessionID, protoDisplays);
      LinkedInFront(p, spine);
      protoDisplays := p;
      spine := [p] + spine;
      Prepended(p);
    }

    lemma LinkedInFront(p: ProtoDisplay, ps: seq<ProtoDisplay>)
      requires ProtosLinked(p.next, ps) && p !in ps
      ensures ProtosLinked(p, [p] + ps)
    {
      var all := [p] + ps;
      assert forall j :: 0 < j < |all| ==> all[j] == ps[j - 1];
    }

    twostate lemma Prepended(new p: ProtoDisplay)
      requires spine == [p] + old(spine)
      requires forall j :: 0 <= j < |old(spine)| ==> ProtoValue(old(spine)[j]) == old(ProtoValue(spine[j]))
      ensures View() == [ProtoValue(p)] + old(View()) && Repr() == old(Repr()) + {p}
    {
      forall j | 0 <= j < |spine| ensures ProtoValue(spine[j]) == ([ProtoValue(p)] + old(View()))[j] {
        assert j > 0 ==> spine[j] == old(spine)[j - 1];
      }
    }
  }

  /**
   The sender's own address if it is offered, or else the first usable one. The two arrays of the
   packet need not have the same length.
   */
  method SelectConnectionTypeIndex(types: seq<int>, addresses: seq<Bytes>, sender: Client, isLocal: Client -> bool)
          returns (r: Xdmcp.Selection)
    ensures r == Xdmcp.SelectConnection(types, addresses, sender, isLocal)
  {
    ghost var connections := Xdmcp.Connections(types, addresses);
    var found: Option<Client> := None;
    for i := 0 to |types|
      invariant forall k :: 0 <= k < i && k < |addresses| ==> !(connections[k] == sender && Xdmcp.Usable(sender))
      invariant Xdmcp.FirstUsable(connections)
             == if found.Some? then found else Xdmcp.FirstUsable(connections[if i < |connections| then i else |connections|..])
      invariant forall k :: |addresses| <= k < i ==> !Xdmcp.LooksPast(types, addresses, sender, k)
    {
      if i < |addresses| {
        assert connections[i..][1..] == connections[i + 1..];
      }
      if Xdmcp.UsableType(types[i]) {
        if types[i] == sender.connectionType {
          if i >= |addresses| {
            assert Xdmcp.LooksPast(types, addresses, sender, i);
            return Xdmcp.Overrun;
          }
          if addresses[i] == sender.address {
            assert connections[i] == sender;
            return Xdmcp.Selected(sender);
          }
        }
        if found == None {
          if i >= |addresses| {
            assert Xdmcp.LooksPast(types, addresses, sender, i);
            return Xdmcp.Overrun;
          }
          found := Some(Client(types[i], addresses[i]));
        }
      }
    }
    if found == None && isLocal(sender) {
      return Xdmcp.Selected(sender);
    }
    return if found == None then Xdmcp.NoneUsable else Xdmcp.Selected(found.value);
  }

  /** The authorization that goes with the authentication, or else the first one known. */
  method SelectAuthorizationTypeIndex(authentication: Bytes, names: seq<Bytes>) returns (r: Option<Bytes>)
    ensures r == Xdmcp.SelectAuthorization(authentication, names)
  {
    if authentication == XDM_AUTHENTICATION || authentication == [] {
      var partner := if authentication == XDM_AUTHENTICATION then XDM_AUTHORIZATION else [];
      for i := 0 to |names|
        invariant partner !in names[..i]
      {
        if names[i] == partner {
          return Some(partner);
        }
      }
    }
    for i := 0 to |names|
      invariant Xdmcp.FirstKnown(names) == Xdmcp.FirstKnown(names[i..])
    {
      assert names[i..][1..] == names[i + 1..];
      if names[i] == MIT_MAGIC_COOKIE || names[i] == XDM_AUTHORIZATION {
        return Some(names[i]);
      }
    }
    return None;
  }

  /** The daemon's state as far as XDMCP touches it; `log` is what was sent and noted. */
  class Server {
    const manager: Manager
    const protos: ProtoDisplays
    const users: IndirectUsers
    const choices: ChoiceList
    var globalSessionID: nat
    ghost var log: seq<Xdmcp.Event>

    ghost predicate Valid()
      reads manager, manager.spine`next, protos, protos.spine`next
    {
      manager.Valid() && protos.Valid()
    }

    ghost function View(): Xdmcp.World
      reads this, manager, manager.spine, protos, protos.spine, users, choices
    {
      Xdmcp.World(manager.View(), protos.View(), users.users, choices.choices, choices.timeout, globalSessionID, log)
    }

    constructor (time: nat, timeout: int)
      ensures Valid() && View() == Xdmcp.Init(time, timeout)
      ensures fresh(manager) && fresh(protos) && fresh(users) && fresh(choices) && fresh(manager.Repr())
      ensures fresh(protos.Repr())
    {
      manager := new Manager();
      protos := new ProtoDisplays();
      users := new IndirectUsers();
      choices := new ChoiceList(timeout);
      globalSessionID := Xdmcp.InitSessionID(time);
      log := [];
    }

    // -------------------------------------------------------------- queries

    method Note(e: Xdmcp.Event)
      requires Valid()
      modifies `log
      ensures Valid() && View() == old(View()).(log := old(View()).log + [e])
    {
      log := log + [e];
    }

    /** Nothing is done after an undefined read. */
    method Die()
      requires Valid()
      modifies manager`alive
      ensures Valid() && View() == Xdmcp.Die(old(View()))
    {
      manager.alive := false;
    }

    method NoteQuery(c: Client, indirectly: bool)
      requires Valid()
      modifies `log, users
      ensures Valid()
      ensures View() == old(View()).(
                indirect := if indirectly then Remember(old(View()).indirect, c) else Drop(old(View()).indirect, c),
                log := old(View()).log + [Xdmcp.Answered(c, indirectly)])
    {
      hide Remember, Drop, Valid, Manager.View, ProtoDisplays.View;
      if indirectly {
        users.RememberIndirectClient(c);
      } else {
        users.ForgetIndirectClient(c);
      }
      log := log + [Xdmcp.Answered(c, indirectly)];
    }

    method AllQueryRespond(env: Xdmcp.Env, kind: QueryKind, from: Netaddr)
      requires Valid()
      modifies `log, manager`alive, users
      ensures Valid() && View() == Xdmcp.Respond(old(View()), env, kind, from)
    {
      hide Acceptable, AcceptOverruns, Remember, Drop, Valid, View;
      if Family(from) < 0 {
        return;
      }
      var c := ClientOf(from);
      NoteQuery(c, kind == IndirectQuery);
      var willing, overrun := AcceptableDisplayAddress(env.db, env.noFile, c, env.hostname(c), kind);
      if overrun {
        Die();
      } else if willing {
        Note(Xdmcp.SentWilling(from));
      } else if kind == DirectQuery {
        Note(Xdmcp.SentUnwilling(from));
      }
    }

    /** One call of the function given to the walk over the hosts. */
    method SendForward(env: Xdmcp.Env, from: Netaddr, target: Bytes)
      modifies `log
      ensures log == old(log) + Xdmcp.Forwards(env, from, [AccessRules.CalledAddress(target)])
    {
      if |target| != 4 && |target| != 8 && |target| != 16 && |target| != 20 {
        return;
      }
      var c := ClientOf(from);
      var claimed := c.address;
      if env.isLocal(c) && env.ownAddress(target).Some? {
        claimed := env.ownAddress(target).value;
      }
      log := log + [Xdmcp.Forwarded(target, claimed, from.port)];
    }

    method SendForwards(env: Xdmcp.Env, from: Netaddr, calls: seq<AccessRules.Called>)
      modifies `log
      ensures log == old(log) + Xdmcp.Forwards(env, from, calls)
    {
      hide Xdmcp.Forwards;
      NothingForwarded(env, from, calls);
      for i := 0 to |calls|
        invariant log == old(log) + Xdmcp.Forwards(env, from, calls[..i])
      {
        match calls[i] {
          case CalledAddress(target) => SendForward(env, from, target);
          case CalledBroadcast =>
        }
        OneMoreForward(env, from, calls[..i], calls[i]);
        assert calls[..i + 1] == calls[..i] + [calls[i]];
      }
      assert calls[..|calls|] == calls;
    }

    method IndirectRespond(env: Xdmcp.Env, from: Netaddr, now: int)
      requires Valid()
      modifies `log, manager`alive, users, choices
      ensures Valid() && View() == Xdmcp.RespondIndirect(old(View()), env, from, now)
    {
      hide ChooserEntry, Acceptable, IndirectOverruns, Manager.Valid, ProtoDisplays.Valid, ProtoDisplays.View, Xdmcp.Forwards,
        Xdmcp.Respond, Values;
      var c := ClientOf(from);
      var targets, overrun := ForEachMatchingIndirectHost(env.db, env.isLocal, choices, c, env.hostname(c), now);
      if overrun {
        Die();
        return;
      }
      if ChooserEntry(env.db, c, env.hostname(c)) {
        log := log + [Xdmcp.Consulted(c, now)];
      }
      SendForwards(env, from, targets.calls);
      if targets.local {
        AllQueryRespond(env, IndirectQuery, from);
      }
    }

    // -------------------------------------------------------------- REQUEST

    /** Anything but XDM-AUTHENTICATION-1 is taken as it is. */
    method CheckAuthentication(p: ProtoDisplay, env: Xdmcp.Env, displayID: Bytes, name: Bytes,
            data: array<byte>) returns (ok: bool)
      requires BlockSized(env.cipher)
      modifies p`key, p`authenticationData, data
      ensures var r := XdmAuth.CheckAuthentication(env.cipher, old(p.Value()), env.keys, displayID, name, old(data[..]));
              ok == r.Some? && (ok ==> p.Value() == r.value.credentials && data[..] == r.value.reply)
    {
      ok := true;
      if XDM_AUTHENTICATION <= name {
        ok := p.XdmCheckAuthentication(env.cipher, env.keys, displayID, data);
      }
    }

    /** Works out credentials and reply in place; the result says what comes of the request. */
    method Authorize(p: ProtoDisplay, env: Xdmcp.Env, r: Xdmcp.RequestPacket, random: Option<Bytes>)
            returns (ok: bool, nullCopy: bool, reply: Bytes)
      requires BlockSized(env.cipher) && (random.Some? ==> |random.value| >= 16)
      modifies p`key, p`authenticationData, p`fileAuthorization, p`xdmcpAuthorization
      ensures var g := Xdmcp.Authorize(old(p.Value()), env, r, random);
              && ok == !g.TurnedDown? && nullCopy == g.NullCopy?
              && (ok ==> p.Value() == g.credentials) && (ok && !nullCopy ==> reply == g.reply)
    {
      var name := SelectAuthorizationTypeIndex(r.authenticationName, r.authorizationNames);
      if r.authorizationNames != [] && name == None {
        return false, false, [];
      }
      var data := new byte[|r.authenticationData|];
      Store(data, r.authenticationData);
      hide XdmAuth.CheckAuthentication, SetAuthorization, Xdmcp.SelectAuthorization, CopiesNull;
      ok := CheckAuthentication(p, env, r.displayID, r.authenticationName, data);
      reply, nullCopy := data[..], false;
      if ok && r.authorizationNames != [] {
        nullCopy := p.SetProtoDisplayAuthorization(env.cipher, name.value, random);
      }
    }

    twostate lemma ProtoUpdated(i: nat)
      requires protos.spine == old(protos.spine) && i < |protos.spine|
      requires forall j :: 0 <= j < |protos.spine| && j != i ==>
                 ProtoValue(protos.spine[j]) == old(ProtoValue(protos.spine[j]))
      ensures protos.View() == old(protos.View())[i := ProtoValue(protos.spine[i])]
    {
    }

    lemma ProtosDiffer(i: nat)
      requires protos.Valid() && i < |protos.spine|
      ensures forall j :: 0 <= j < |protos.spine| && j != i ==> protos.spine[j] != protos.spine[i]
    {
    }

    /** The credentials of the proto-display are overwritten, and no others. */
    method Reauthorize(p: ProtoDisplay, ghost i: nat, env: Xdmcp.Env, r: Xdmcp.RequestPacket, random: Option<Bytes>)
      returns (ok: bool, nullCopy: bool, reply: Bytes)
      requires Valid() && i < |protos.spine| && protos.spine[i] == p && BlockSized(env.cipher)
      requires random.Some? ==> |random.value| >= 16
      modifies p`key, p`authenticationData, p`fileAuthorization, p`xdmcpAuthorization
      ensures var g := Xdmcp.Authorize(old(p.Value()), env, r, random);
              && ok == !g.TurnedDown? && nullCopy == g.NullCopy?
              && (ok ==> p.Value() == g.credentials) && (ok && !nullCopy ==> reply == g.reply)
      ensures Valid() && View() == old(View()).(protos := old(protos.View())[i := ProtoValue(p)])
    {
      hide Xdmcp.Authorize, ProtoDisplays.Valid, Manager.Valid;
      ProtosDiffer(i);
      ok, nullCopy, reply := Authorize(p, env, r, random);
      ProtoUpdated(i);
    }

    /** The proto-display goes, and the display is told. */
    method TurnDown(p: ProtoDisplay, ghost i: nat, from: Netaddr)
      requires Valid() && i < |protos.spine| && protos.spine[i] == p
      modifies `log, protos, protos.Repr()`next
      ensures Valid() && protos.Repr() <= old(protos.Repr())
      ensures View() == old(View()).(protos := Xdmcp.Dispose(old(protos.View()), i), log := old(log) + [Xdmcp.Declined(from)])
    {
      hide ProtoDisplays.Valid, Manager.Valid, ProtoDisplays.View, Manager.View, ProtoDisplays.Repr, Xdmcp.Dispose;
      protos.DisposeProtoDisplay(p, i);
      log := log + [Xdmcp.Declined(from)];
    }

    method SendAccept(p: ProtoDisplay, r: Xdmcp.RequestPacket, reply: Bytes)
      requires Valid()
      modifies `log
      ensures Valid()
      ensures View() == old(View()).(log := old(log) + [Xdmcp.Accepted(
                p.sessionID, r.from, r.number, reply, if r.authorizationNames == [] then None else Offered(p.Value()), p.key,
                Xdmcp.Authenticates(r))])
    {
      var offered := None;
      if r.authorizationNames != [] {
        offered := if p.xdmcpAuthorization.Some? then p.xdmcpAuthorization else p.fileAuthorization;
      }
      log := log + [Xdmcp.Accepted(p.sessionID, r.from, r.number, reply, offered, p.key, Xdmcp.Authenticates(r))];
    }

    /** The second half of a request. */
    method GrantRequest(p: ProtoDisplay, ghost i: nat, env: Xdmcp.Env, r: Xdmcp.RequestPacket, random: Option<Bytes>)
      requires Valid() && i < |protos.spine| && protos.spine[i] == p && BlockSized(env.cipher)
      requires random.Some? ==> |random.value| >= 16
      modifies `log, manager`alive, protos, protos.Repr()`next
      modifies p`key, p`authenticationData, p`fileAuthorization, p`xdmcpAuthorization
      ensures Valid() && protos.Repr() <= old(protos.Repr()) && View() == Xdmcp.Grant(old(View()), env, r, random, i)
    {
      ghost var before := View();
      assert before.protos[i] == ProtoValue(p);
      hide Xdmcp.Authorize, Valid, View, ProtoDisplays.Repr, Xdmcp.Dispose, Offered;
      var ok, nullCopy, reply := Reauthorize(p, i, env, r, random);
      if !ok {
        SameDisposed(before.protos, i, ProtoValue(p));
        TurnDown(p, i, r.from);
      } else if nullCopy {
        Die();
      } else {
        SendAccept(p, r, reply);
      }
    }

    lemma SameDisposed(ps: seq<Xdmcp.Proto>, i: nat, p: Xdmcp.Proto)
      requires i < |ps|
      ensures Xdmcp.Dispose(ps[i := p], i) == Xdmcp.Dispose(ps, i)
    {
    }

    /** The connection to use, unless the sender is not welcome or cannot be reached. */
    method Admit(env: Xdmcp.Env, r: Xdmcp.RequestPacket) returns (selection: Xdmcp.Selection)
      ensures selection.Selected? <==> Xdmcp.Admissible(env, r)
      ensures selection.Selected? ==> selection == Xdmcp.ConnectionOf(env, r)
      ensures selection.Overrun? <==> Xdmcp.Overreads(env, r)
    {
      hide Acceptable, AcceptOverruns, Xdmcp.SelectConnection;
      if Family(r.from) < 0 {
        return Xdmcp.NoneUsable;
      }
      var c := ClientOf(r.from);
      var acceptable, overrun := AcceptableDisplayAddress(env.db, env.noFile, c, env.hostname(c), OnRequest);
      if overrun {
        return Xdmcp.Overrun;
      }
      if !acceptable {
        return Xdmcp.NoneUsable;
      }
      selection := SelectConnectionTypeIndex(r.connectionTypes, r.connectionAddresses, c, env.isLocal);
    }

    method CreateProto(env: Xdmcp.Env, r: Xdmcp.RequestPacket, connection: Client, now: int) returns (p: ProtoDisplay)
      requires Valid() && Xdmcp.Admissible(env, r) && Xdmcp.Selected(connection) == Xdmcp.ConnectionOf(env, r)
      modifies `globalSessionID, `log, protos, protos.Repr()`next
      ensures Valid() && protos.spine != [] && protos.spine[0] == p && fresh(protos.Repr() - old(protos.Repr())) && fresh(p)
      ensures View() == Xdmcp.Create(old(View()), env, r, now)
    {
      hide Xdmcp.Admissible, Xdmcp.ConnectionOf, Xdmcp.TimeoutProtos, Manager.Valid, ProtoDisplays.Valid;
      globalSessionID := globalSessionID + 1;
      var id := globalSessionID % Xdmcp.CARD32_LIMIT;
      p := protos.NewProtoDisplay(r.from, r.number, now, connection, id);
      log := log + [Xdmcp.Created(id, r.from, r.number)];
    }

    method RequestRespond(env: Xdmcp.Env, r: Xdmcp.RequestPacket, now: int, random: Option<Bytes>)
      requires Valid() && BlockSized(env.cipher) && (random.Some? ==> |random.value| >= 16)
      modifies this, manager`alive, protos, protos.Repr()
      ensures Valid() && fresh(protos.Repr() - old(protos.Repr()))
      ensures View() == Xdmcp.Request(old(View()), env, r, now, random)
    {
      hide Xdmcp.Admissible, Xdmcp.Overreads, Xdmcp.ConnectionOf, Xdmcp.Grant, Xdmcp.Create, Xdmcp.FindProto, Valid, View;
      var p, i := FindProtoDisplay(r.from, r.number);
      if p == null {
        var selection := Admit(env, r);
        match selection {
          case NoneUsable =>
            Note(Xdmcp.Declined(r.from));
            return;
          case Overrun =>
            Die();
            return;
          case Selected(connection) =>
            p := CreateProto(env, r, connection, now);
            i := 0;
        }
      }
      assert p in protos.Repr();
      GrantRequest(p, i, env, r, random);
    }

    method FindProtoDisplay(from: Netaddr, number: nat) returns (p: ProtoDisplay?, ghost i: nat)
      requires Valid()
      ensures i == Xdmcp.FindProto(View().protos, from, number) && p == ProtoAt(protos.spine, i)
      ensures |View().protos| == |protos.spine| && (p != null ==> View().protos[i] == ProtoValue(p))
    {
      p, i := protos.FindProtoDisplay(from, number);
    }

    // -------------------------------------------------------------- MANAGE

    method FindDisplayByAddress(from: Netaddr, number: nat) returns (d: Entry?, ghost i: nat)
      requires Valid()
      ensures i == Xdmcp.FindByAddress(Values(manager.spine), from, number) && d == NodeAt(manager.spine, i)
    {
      d, i := manager.displays, 0;
      while d != null && !(d.displayType.origin == Displays.FromXdmcp && d.link.number == number && d.link.from == from)
        invariant i <= |manager.spine| && d == NodeAt(manager.spine, i)
        invariant Xdmcp.FindByAddress(Values(manager.spine), from, number)
               == i + Xdmcp.FindByAddress(Values(manager.spine)[i..], from, number)
        decreases |manager.spine| - i
      {
        d, i := d.next, i + 1;
      }
    }

    method FindDisplayBySessionID(id: nat) returns (d: Entry?, ghost i: nat)
      requires Valid()
      ensures i == Xdmcp.FindBySessionID(Values(manager.spine), id) && d == NodeAt(manager.spine, i)
    {
      d, i := manager.displays, 0;
      while d != null && d.link.sessionID != id
        invariant i <= |manager.spine| && d == NodeAt(manager.spine, i)
        invariant Xdmcp.FindBySessionID(Values(manager.spine), id)
               == i + Xdmcp.FindBySessionID(Values(manager.spine)[i..], id)
        decreases |manager.spine| - i
      {
        d, i := d.next, i + 1;
      }
    }

    method ForgetClient(c: Client)
      requires Valid()
      modifies users
      ensures Valid() && View() == old(View()).(indirect := Drop(old(View()).indirect, c))
    {
      hide Drop, Valid, Manager.View, ProtoDisplays.View;
      users.ForgetIndirectClient(c);
    }

    method AskChooser(env: Xdmcp.Env, c: Client, now: int) returns (useChooser: bool, overrun: bool)
      requires Valid()
      modifies `log, choices
      ensures Valid() && overrun == SearchOverruns(env.db, c, env.hostname(c), true)
      ensures overrun ==> View() == old(View())
      ensures !overrun ==>
                && useChooser == (ChooserEntry(env.db, c, env.hostname(c))
                                  && Lookup(old(View()).choices, c, now, old(View()).timeout).0 == None)
                && View() == Xdmcp.Consult(old(View()), env, c, now)
    {
      hide ChooserEntry, Lookup, SearchOverruns, Valid, Manager.View, ProtoDisplays.View;
      useChooser, overrun := UseChooser(env.db, choices, c, env.hostname(c), now);
      if !overrun && ChooserEntry(env.db, c, env.hostname(c)) {
        log := log + [Xdmcp.Consulted(c, now)];
      }
    }

    /** Forgets that the client's last query was indirect, and asks whether it gets the chooser. */
    method TakeChooserFlag(env: Xdmcp.Env, c: Client, now: int) returns (useChooser: bool, overrun: bool)
      requires Valid()
      modifies `log, users, choices
      ensures Valid() && overrun == Xdmcp.ChooserOverruns(old(View()), env, c)
      ensures overrun ==> View() == old(View()).(indirect := Drop(old(View()).indirect, c))
      ensures !overrun ==>
                && useChooser == Xdmcp.UsesChooser(old(View()), env, c, now)
                && View() == (if c in old(View()).indirect then Xdmcp.Consult(old(View()), env, c, now) else old(View()))
                              .(indirect := Drop(old(View()).indirect, c))
    {
      hide ChooserEntry, Lookup, SearchOverruns, Valid, View, Drop;
      useChooser, overrun := false, false;
      var indirectly := IsIndirectClient(c);
      if indirectly {
        ForgetClient(c);
        useChooser, overrun := AskChooser(env, c, now);
      } else {
        NotThere(View().indirect, c);
      }
    }

    method IsIndirectClient(c: Client) returns (b: bool)
      ensures b == (c in View().indirect)
    {
      b := users.IsIndirectClient(c);
    }

    /** What the new display is managed with. */
    method LinkFor(env: Xdmcp.Env, from: Netaddr, number: nat, id: nat, now: int, p: ProtoDisplay, ghost i: nat)
      returns (link: Displays.Link, overrun: bool)
      requires Valid() && i < |protos.spine| && protos.spine[i] == p
      modifies `log, users, choices
      ensures Valid() && overrun == Xdmcp.ChooserOverruns(old(View()), env, ClientOf(from))
      ensures overrun ==> View() == old(View()).(indirect := Drop(old(View()).indirect, ClientOf(from)))
      ensures !overrun ==>
                && link == Displays.Link(id, from, number, Xdmcp.UsesChooser(old(View()), env, ClientOf(from), now),
                                         old(View()).protos[i].credentials.fileAuth)
                && View() == (if ClientOf(from) in old(View()).indirect then Xdmcp.Consult(old(View()), env, ClientOf(from), now)
                              else old(View())).(indirect := Drop(old(View()).indirect, ClientOf(from)))
    {
      hide Xdmcp.UsesChooser, Xdmcp.ChooserOverruns, Xdmcp.Consult, Drop, Manager.View;
      var useChooser;
      useChooser, overrun := TakeChooserFlag(env, ClientOf(from), now);
      link := Displays.Link(id, from, number, useChooser, p.fileAuthorization);
    }

    /** The proto-display gives way to a display. */
    method Replace(p: ProtoDisplay, ghost i: nat, name: string, cls: Option<string>, link: Displays.Link, env: Xdmcp.Env,
                   o: Displays.Outcome)
      requires Valid() && i < |protos.spine| && protos.spine[i] == p
      modifies `log, manager, manager.Repr(), protos, protos.Repr()`next
      ensures Valid() && fresh(manager.Repr() - old(manager.Repr())) && protos.Repr() <= old(protos.Repr())
      ensures View() == old(View()).(dm := Displays.TakeOver(old(manager.View()), name, cls, link, env.resources, o),
                                     protos := Xdmcp.Dispose(old(protos.View()), i),
                                     log := old(log) + [Xdmcp.Started(link.sessionID, link.from, link.number, link.useChooser, link.auth)])
    {
      hide Displays.TakeOver, Xdmcp.Dispose, Manager.View, ProtoDisplays.View, Manager.Valid, ProtoDisplays.Valid;
      protos.DisposeProtoDisplay(p, i);
      manager.TakeOver(name, cls, link, env.resources, o);
      log := log + [Xdmcp.Started(link.sessionID, link.from, link.number, link.useChooser, link.auth)];
    }

    /** The class of a display, up to its first NUL, or none. */
    method CopyClass(displayClass: string) returns (cls: Option<string>)
      ensures cls == Xdmcp.ClassOf(displayClass)
    {
      if displayClass == [] {
        return None;
      }
      var n := 0;
      while n < |displayClass| && displayClass[n] != '\0'
        invariant n <= |displayClass|
        invariant displayClass[..n] + Xdmcp.UpToNulChar(displayClass[n..]) == Xdmcp.UpToNulChar(displayClass)
      {
        assert displayClass[n..][1..] == displayClass[n + 1..];
        assert displayClass[..n] + [displayClass[n]] == displayClass[..n + 1];
        n := n + 1;
      }
      assert Xdmcp.UpToNulChar(displayClass[n..]) == [] && displayClass[..n] + [] == displayClass[..n];
      return Some(displayClass[..n]);
    }

    /** A MANAGE that names a proto-display and its session id. */
    method StartSession(p: ProtoDisplay, ghost i: nat, name: string, env: Xdmcp.Env, from: Netaddr, number: nat, id: nat,
                        displayClass: string, now: int, o: Displays.Outcome)
      requires Valid() && Xdmcp.IsNamed(View(), env, from, number, id)
      requires i == Xdmcp.FindProto(View().protos, from, number) < |protos.spine| && p == protos.spine[i]
      requires Some(name) == env.displayName(p.connection, from, number)
      modifies `log, manager, manager.Repr(), protos, protos.Repr()`next, users, choices
      ensures Valid() && fresh(manager.Repr() - old(manager.Repr())) && protos.Repr() <= old(protos.Repr())
      ensures View() == if Xdmcp.Starts(old(View()), env, from, number, id)
                        then Xdmcp.StartSession(old(View()), env, from, number, id, displayClass, now, o)
                        else Xdmcp.Die(old(View()).(indirect := Drop(old(View()).indirect, ClientOf(from))))
    {
      hide Xdmcp.UsesChooser, Xdmcp.ChooserOverruns, Xdmcp.Consult, Drop, Manager.View, Displays.TakeOver, Xdmcp.Dispose, Valid,
        Xdmcp.ClassOf;
      ghost var before := View();
      var cls := CopyClass(displayClass);
      var link, overrun := LinkFor(env, from, number, id, now, p, i);
      if overrun {
        Die();
        return;
      }
      AskedKeeps(before, env, ClientOf(from), now);
      Replace(p, i, name, cls, link, env, o);
    }

    /** A MANAGE without a proto-display of that id is ignored if it was acted upon already, or refused. */
    method RefuseOrIgnore(noProto: bool, from: Netaddr, number: nat, id: nat)
      requires Valid() && noProto == (Xdmcp.FindProto(View().protos, from, number) == |View().protos|)
      modifies `log
      ensures Valid()
      ensures View() == if Xdmcp.IsDuplicate(old(View()), from, number, id) then old(View())
                        else old(View()).(log := old(View()).log + [Xdmcp.Refused(from, id)])
    {
      hide Valid, Xdmcp.FindByAddress, Xdmcp.FindProto;
      if noProto {
        var d, k := FindDisplayByAddress(from, number);
        if d != null && d.link.sessionID == id {
          return;
        }
      }
      Note(Xdmcp.Refused(from, id));
    }

    method Manage(env: Xdmcp.Env, from: Netaddr, number: nat, id: nat, displayClass: string, now: int, o: Displays.Outcome)
      requires Valid()
      modifies `log, manager, manager.Repr(), protos, protos.Repr()`next, users, choices
      ensures Valid() && fresh(manager.Repr() - old(manager.Repr())) && protos.Repr() <= old(protos.Repr())
      ensures View() == Xdmcp.Manage(old(View()), env, from, number, id, displayClass, now, o)
    {
      hide Xdmcp.StartSession, Valid, Xdmcp.IsDuplicate, View, Xdmcp.ChooserOverruns, Xdmcp.FindProto, Drop;
      var p, i := FindProtoDisplay(from, number);
      if p == null || p.sessionID != id {
        RefuseOrIgnore(p == null, from, number, id);
        return;
      }
      var name := env.displayName(p.connection, from, number);
      if name == None {
        Note(Xdmcp.SentFailed(from, id));
        return;
      }
      StartSession(p, i, name.value, env, from, number, id, displayClass, now, o);
    }

    // -------------------------------------------------------------- KEEPALIVE, and the rest

    method SendAlive(from: Netaddr, number: nat, id: nat)
      requires Valid()
      modifies `log
      ensures Valid() && View() == Xdmcp.KeepAlive(old(View()), from, number, id)
    {
      hide Xdmcp.FindBySessionID, Xdmcp.FindByAddress, Valid;
      var d, i := FindDisplayBySessionID(id);
      if d == null {
        d, i := FindDisplayByAddress(from, number);
      }
      var sendRunning, sendSessionID := false, 0;
      if d != null && d.status == Displays.Running {
        if d.link.sessionID == id {
          sendRunning := true;
        }
        sendSessionID := d.link.sessionID;
      }
      log := log + [Xdmcp.Alive(from, sendRunning, sendSessionID)];
    }

    /** The chooser reports what its user picked. */
    method ProcessChooser(c: Client, choice: Bytes, now: int)
      requires Valid()
      modifies `log, choices
      ensures Valid()
      ensures View() == old(View()).(choices := Register(old(choices.choices), c, choice, now),
                                     log := old(log) + [Xdmcp.Chosen(c, choice, now)])
    {
      choices.RegisterIndirectChoice(c, choice, now);
      log := log + [Xdmcp.Chosen(c, choice, now)];
    }

    /** The packet is read and its handler called: what the server does is a step of the protocol. */
    method ProcessRequestSocket(packet: Xdmcp.Step)
      requires Valid() && Xdmcp.Possible(packet) && !packet.Ran?
      requires packet.Requested? ==> BlockSized(packet.env.cipher)
      modifies this, manager, manager.Repr(), protos, protos.Repr(), users, choices
      ensures Valid() && fresh(manager.Repr() - old(manager.Repr())) && fresh(protos.Repr() - old(protos.Repr()))
      ensures View() == Xdmcp.Next(old(View()), packet)
    {
      hide Valid, Xdmcp.Respond, Xdmcp.RespondIndirect, Xdmcp.Request, Xdmcp.Manage, Xdmcp.KeepAlive, Register;
      if !manager.alive {
        return;
      }
      match packet {
        case Queried(env, kind, from) => AllQueryRespond(env, kind, from);
        case QueriedIndirectly(env, from, now) => IndirectRespond(env, from, now);
        case Requested(env, r, now, random) => RequestRespond(env, r, now, random);
        case ManageCame(env, from, number, id, displayClass, now, o) => Manage(env, from, number, id, displayClass, now, o);
        case KeepAliveCame(from, number, id) => SendAlive(from, number, id);
        case ChooserReplied(c, choice, now) => ProcessChooser(c, choice, now);
      }
    }
  }

  lemma NothingForwarded(env: Xdmcp.Env, from: Netaddr, calls: seq<AccessRules.Called>)
    ensures Xdmcp.Forwards(env, from, calls[..0]) == [] && Xdmcp.Forwards(env, from, [AccessRules.CalledBroadcast]) == []
  {
  }

  lemma {:induction false} OneMoreForward(env: Xdmcp.Env, from: Netaddr, calls: seq<AccessRules.Called>, call: AccessRules.Called)
    ensures Xdmcp.Forwards(env, from, calls + [call]) == Xdmcp.Forwards(env, from, calls) + Xdmcp.Forwards(env, from, [call])
  {
    if calls == [] {
      assert calls + [call] == [call];
    } else {
      assert (calls + [call])[1..] == calls[1..] + [call];
      OneMoreForward(env, from, calls[1..], call);
    }
  }

  lemma AskedKeeps(w: Xdmcp.World, env: Xdmcp.Env, c: Client, now: int)
    ensures var asked := Xdmcp.Consult(w, env, c, now);
            asked.dm == w.dm && asked.protos == w.protos && asked.timeout == w.timeout && asked.globalSessionID == w.globalSessionID
  {
  }

  lemma {:induction false} NotThere(s: seq<Client>, c: Client)
    requires c !in s
    ensures Drop(s, c) == s
  {
    if s != [] {
      NotThere(s[1..], c);
    }
  }
}
