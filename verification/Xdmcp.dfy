/**
 XDMCP as the manager speaks it (xdm/xdmcp.c, xdm/protodpy.c, xdm/policy.c): queries, the REQUEST
 that makes a proto-display, the MANAGE that makes a display of it, and KEEPALIVE. Packets come in
 any order, more than once, or not at all: any sequence of steps is a run.
 */
module Xdmcp {
  import opened Options
  import opened Network
  import opened Choices
  import AccessRules
  import opened AccessQueries
  import opened XdmAuth
  import Displays

  // ---------------------------------------------------------------- state

  datatype Proto = Proto(
    from: Netaddr, number: nat, date: nat, connection: Client, sessionID: nat, credentials: Credentials)

  /** What the manager did that others can see, or that later behaviour depends on. */
  datatype Event =
    | Answered(client: Client, indirect: bool)
    | SentWilling(to: Netaddr)
    | SentUnwilling(to: Netaddr)
    | Forwarded(target: Bytes, claimed: Bytes, port: Bytes)
    | Created(id: nat, from: Netaddr, number: nat)
    | Accepted(id: nat, from: Netaddr, number: nat, reply: Bytes, offered: Option<Auth>, key: Bytes, authenticated: bool)
    | Declined(from: Netaddr)
    | Started(id: nat, from: Netaddr, number: nat, useChooser: bool, auth: Option<Auth>)
    | Refused(from: Netaddr, id: nat)
    | SentFailed(from: Netaddr, id: nat)
    | Alive(to: Netaddr, running: bool, id: nat)
    | Chosen(client: Client, choice: Bytes, time: int)
    | Consulted(client: Client, time: int)

  datatype World = World(
    dm: Displays.State, protos: seq<Proto>, indirect: seq<Client>, choices: seq<ChoiceRec>, timeout: int,
    globalSessionID: nat, log: seq<Event>)

  /** What a step looks up: access rules, names, keys and resources as they stand when it is taken. */
  datatype Env = Env(
    db: AccessRules.Database, noFile: bool, hostname: Client -> string, isLocal: Client -> bool,
    ownAddress: Bytes -> Option<Bytes>, displayName: (Client, Netaddr, nat) -> Option<string>,
    cipher: Cipher, keys: seq<KeyLine>, resources: Displays.Database)

  // ---------------------------------------------------------------- session ids

  const CARD32_LIMIT: nat := 0x1_0000_0000

  /** init_session_id: fifteen bits of the time, times 16000. */
  function InitSessionID(time: nat): (r: nat)
    ensures r <= 32767 * 16000
  {
    (time % 0x8000) * 16000
  }

  function NextSessionID(w: World): nat {
    (w.globalSessionID + 1) % CARD32_LIMIT
  }

  function Init(time: nat, timeout: int): World {
    World(Displays.State([], {}, true), [], [], [], timeout, InitSessionID(time), [])
  }

  // ---------------------------------------------------------------- proto-displays

  const PROTO_TIMEOUT := 30 * 60

  function FindProto(ps: seq<Proto>, from: Netaddr, number: nat): (i: nat)
    ensures i <= |ps|
    ensures i < |ps| ==> ps[i].from == from && ps[i].number == number
    ensures forall j :: 0 <= j < i ==> !(ps[j].from == from && ps[j].number == number)
  {
    if ps == [] || (ps[0].from == from && ps[0].number == number) then 0 else 1 + FindProto(ps[1..], from, number)
  }

  const ULONG_LIMIT: nat := 0x1_0000_0000_0000_0000

  /** A time kept as an unsigned long. */
  function Date(now: int): nat {
    now % ULONG_LIMIT
  }

  /** The comparison is made on unsigned numbers. */
  predicate Expired(date: nat, now: int) {
    date < Date(now - PROTO_TIMEOUT)
  }

  function TimeoutProtos(ps: seq<Proto>, now: int): seq<Proto> {
    if ps == [] then []
    else if Expired(ps[0].date, now) then TimeoutProtos(ps[1..], now)
    else [ps[0]] + TimeoutProtos(ps[1..], now)
  }

  function Dispose(ps: seq<Proto>, i: nat): seq<Proto>
    requires i < |ps|
  {
    ps[..i] + ps[i + 1..]
  }

  // ---------------------------------------------------------------- queries

  /** Nothing is done after an undefined read. */
  function Die(w: World): World {
    w.(dm := w.dm.(alive := false))
  }

  function Respond(w: World, env: Env, kind: QueryKind, from: Netaddr): World {
    if Family(from) < 0 then w
    else
      var c := ClientOf(from);
      var asked := w.(indirect := if kind == IndirectQuery then Remember(w.indirect, c) else Drop(w.indirect, c),
                      log := w.log + [Answered(c, kind == IndirectQuery)]);
      if AcceptOverruns(env.db, env.noFile, c, env.hostname(c), kind) then Die(asked)
      else if Acceptable(env.db, env.noFile, c, env.hostname(c), kind) then asked.(log := asked.log + [SentWilling(from)])
      else asked.(log := asked.log + if kind == DirectQuery then [SentUnwilling(from)] else [])
  }

  /** An IPv4 or IPv6 address, with or without the index of an interface. */
  predicate Sendable(address: Bytes) {
    |address| == 4 || |address| == 8 || |address| == 16 || |address| == 20
  }

  /** The client's address as the other host should see it: one of this host's, when the client is here. */
  function ClaimedAddress(env: Env, c: Client, to: Bytes): Bytes {
    if env.isLocal(c) && env.ownAddress(to).Some? then env.ownAddress(to).value else c.address
  }

  /** What `sendForward` makes of the calls: nothing of an address it cannot send to. */
  function Forwards(env: Env, from: Netaddr, calls: seq<AccessRules.Called>): (r: seq<Event>)
    ensures forall i :: 0 <= i < |r| ==> r[i].Forwarded? && Sendable(r[i].target)
  {
    if calls == [] then []
    else if calls[0].CalledAddress? && Sendable(calls[0].address) then
      var to := calls[0].address;
      [Forwarded(to, ClaimedAddress(env, ClientOf(from), to), from.port)] + Forwards(env, from, calls[1..])
    else Forwards(env, from, calls[1..])
  }

  /** The choice list is only looked at behind a chooser entry. */
  function Consult(w: World, env: Env, c: Client, now: int): World {
    if ChooserEntry(env.db, c, env.hostname(c)) then
      w.(choices := Lookup(w.choices, c, now, w.timeout).1, log := w.log + [Consulted(c, now)])
    else w
  }

  /** What is forwarded before the walk over the hosts reads past a name is not kept. */
  function RespondIndirect(w: World, env: Env, from: Netaddr, now: int): World {
    if IndirectOverruns(env.db, ClientOf(from), env.hostname(ClientOf(from))) then Die(w)
    else Forward(w, env, from, now)
  }

  function Forward(w: World, env: Env, from: Netaddr, now: int): World {
    var c := ClientOf(from);
    var targets := IndirectTargets(env.db, env.isLocal, c, env.hostname(c), Lookup(w.choices, c, now, w.timeout).0);
    var asked := Consult(w, env, c, now);
    var sent := asked.(log := asked.log + Forwards(env, from, targets.calls));
    if targets.local then Respond(sent, env, IndirectQuery, from) else sent
  }

  // ---------------------------------------------------------------- REQUEST

  datatype RequestPacket = RequestPacket(
    from: Netaddr, number: nat, connectionTypes: seq<int>, connectionAddresses: seq<Bytes>,
    authenticationName: Bytes, authenticationData: Bytes, authorizationNames: seq<Bytes>, displayID: Bytes)

  /** What a manager built with TCP connections and IPv6 can connect to. */
  predicate UsableType(connectionType: int) {
    connectionType == FAMILY_LOCAL || connectionType == FAMILY_INTERNET || connectionType == FAMILY_INTERNET6
  }

  predicate Usable(c: Client) {
    UsableType(c.connectionType)
  }

  /** The connections whose type and address both came. */
  function Connections(types: seq<int>, addresses: seq<Bytes>): (r: seq<Client>)
    ensures |r| == if |types| <= |addresses| then |types| else |addresses|
  {
    seq(if |types| <= |addresses| then |types| else |addresses|,
        i requires 0 <= i < |types| && i < |addresses| => Client(types[i], addresses[i]))
  }

  datatype Selection = Selected(connection: Client) | NoneUsable | Overrun

  /** The type at `k` has no address, and the address is looked at, to compare it or to settle on it. */
  predicate LooksPast(types: seq<int>, addresses: seq<Bytes>, sender: Client, k: int) {
    && |addresses| <= k < |types| && UsableType(types[k])
    && (types[k] == sender.connectionType || FirstUsable(Connections(types, addresses)) == None)
  }

  /**
   The connection that is the sender's own address, or else the first usable one, or else a local
   sender's; unless the end of the addresses is passed on the way.
   */
  function SelectConnection(types: seq<int>, addresses: seq<Bytes>, sender: Client, isLocal: Client -> bool): Selection {
    var connections := Connections(types, addresses);
    if sender in connections && Usable(sender) then Selected(sender)
    else if exists k :: |addresses| <= k < |types| && LooksPast(types, addresses, sender, k) then Overrun
    else
      match FirstUsable(connections)
      case Some(c) => Selected(c)
      case None => if isLocal(sender) then Selected(sender) else NoneUsable
  }

  function FirstUsable(connections: seq<Client>): (r: Option<Client>)
    ensures r.Some? ==> r.value in connections && Usable(r.value)
    ensures r == None <==> forall c :: c in connections ==> !Usable(c)
  {
    if connections == [] then None
    else if Usable(connections[0]) then Some(connections[0])
    else FirstUsable(connections[1..])
  }

  function IndexOf(names: seq<Bytes>, name: Bytes): (i: nat)
    ensures i <= |names|
    ensures i < |names| ==> names[i] == name
    ensures forall j :: 0 <= j < i ==> names[j] != name
  {
    if names == [] || names[0] == name then 0 else 1 + IndexOf(names[1..], name)
  }

  predicate IsKnown(name: Bytes) {
    name == MIT_MAGIC_COOKIE || name == XDM_AUTHORIZATION
  }

  function FirstKnown(names: seq<Bytes>): (r: Option<Bytes>)
    ensures r.Some? ==> r.value in names && IsKnown(r.value)
  {
    if names == [] then None else if IsKnown(names[0]) then Some(names[0]) else FirstKnown(names[1..])
  }

  /** The authorization that goes with the authentication, or else the first one known. */
  function SelectAuthorization(authentication: Bytes, names: seq<Bytes>): Option<Bytes> {
    var partner := if authentication == XDM_AUTHENTICATION then Some(XDM_AUTHORIZATION) else if authentication == [] then Some([]) else None;
    if partner.Some? && partner.value in names then partner else FirstKnown(names)
  }

  /** What comes of a request; a null copy ends the manager. */
  datatype Verdict = TurnedDown | Granted(credentials: Credentials, reply: Bytes) | NullCopy(credentials: Credentials)

  /** The verdict on a request, and what it turns the credentials into. */
  function Authorize(p: Credentials, env: Env, r: RequestPacket, random: Option<Bytes>): Verdict
    requires random.Some? ==> |random.value| >= 16
  {
    var selected := SelectAuthorization(r.authenticationName, r.authorizationNames);
    if r.authorizationNames != [] && selected == None then TurnedDown
    else
      match CheckAuthentication(env.cipher, p, env.keys, r.displayID, r.authenticationName, r.authenticationData)
      case None => TurnedDown
      case Some(checked) =>
        if r.authorizationNames == [] then Granted(checked.credentials, checked.reply)
        else
          var made := SetAuthorization(env.cipher, checked.credentials, selected.value, random);
          if CopiesNull(checked.credentials, selected.value, random) then NullCopy(made) else Granted(made, checked.reply)
  }

  /** The display proved that it knows the key, and sent rho. */
  predicate Authenticates(r: RequestPacket) {
    XDM_AUTHENTICATION <= r.authenticationName
  }

  /** The second half of a request, for the proto-display at `i`. */
  function Grant(w: World, env: Env, r: RequestPacket, random: Option<Bytes>, i: nat): World
    requires i < |w.protos| && (random.Some? ==> |random.value| >= 16)
  {
    var p := w.protos[i];
    match Authorize(p.credentials, env, r, random)
    case TurnedDown => w.(protos := Dispose(w.protos, i), log := w.log + [Declined(r.from)])
    case Granted(credentials, reply) =>
      var offered := if r.authorizationNames == [] then None else Offered(credentials);
      w.(protos := w.protos[i := p.(credentials := credentials)],
         log := w.log + [Accepted(p.sessionID, r.from, r.number, reply, offered, credentials.key, Authenticates(r))])
    case NullCopy(credentials) => Die(w.(protos := w.protos[i := p.(credentials := credentials)]))
  }

  /** Which connection the sender of a request offers. */
  function ConnectionOf(env: Env, r: RequestPacket): Selection {
    SelectConnection(r.connectionTypes, r.connectionAddresses, ClientOf(r.from), env.isLocal)
  }

  /** The sender may be managed here. */
  predicate Welcome(env: Env, r: RequestPacket) {
    var c := ClientOf(r.from);
    && Family(r.from) >= 0 && !AcceptOverruns(env.db, env.noFile, c, env.hostname(c), OnRequest)
    && Acceptable(env.db, env.noFile, c, env.hostname(c), OnRequest)
  }

  /** Finding out whether it may reads past a pattern, or finding a way to connect reads past the addresses. */
  predicate Overreads(env: Env, r: RequestPacket) {
    var c := ClientOf(r.from);
    || (Family(r.from) >= 0 && AcceptOverruns(env.db, env.noFile, c, env.hostname(c), OnRequest))
    || (Welcome(env, r) && ConnectionOf(env, r).Overrun?)
  }

  /** The sender may be managed here, and there is a way to connect to it. */
  predicate Admissible(env: Env, r: RequestPacket) {
    Welcome(env, r) && ConnectionOf(env, r).Selected?
  }

  function Create(w: World, env: Env, r: RequestPacket, now: int): (after: World)
    requires Admissible(env, r)
    ensures after.protos != [] && after.protos[1..] == TimeoutProtos(w.protos, now)
  {
    var connection := ConnectionOf(env, r).connection;
    var id := NextSessionID(w);
    w.(globalSessionID := w.globalSessionID + 1,
       protos := [Proto(r.from, r.number, Date(now), connection, id, NO_CREDENTIALS)] + TimeoutProtos(w.protos, now),
       log := w.log + [Created(id, r.from, r.number)])
  }

  function Request(w: World, env: Env, r: RequestPacket, now: int, random: Option<Bytes>): World
    requires random.Some? ==> |random.value| >= 16
  {
    var i := FindProto(w.protos, r.from, r.number);
    if i < |w.protos| then Grant(w, env, r, random, i)
    else if Admissible(env, r) then Grant(Create(w, env, r, now), env, r, random, 0)
    else if Overreads(env, r) then Die(w)
    else w.(log := w.log + [Declined(r.from)])
  }

  // ---------------------------------------------------------------- MANAGE

  function FindByAddress(ds: seq<Displays.Display>, from: Netaddr, number: nat): (i: nat)
    ensures i <= |ds|
    ensures i < |ds| ==> IsAt(ds[i], from, number)
    ensures forall j :: 0 <= j < i ==> !IsAt(ds[j], from, number)
  {
    if ds == [] || IsAt(ds[0], from, number) then 0 else 1 + FindByAddress(ds[1..], from, number)
  }

  predicate IsAt(d: Displays.Display, from: Netaddr, number: nat) {
    d.displayType.origin == Displays.FromXdmcp && d.link.number == number && d.link.from == from
  }

  function FindBySessionID(ds: seq<Displays.Display>, id: nat): (i: nat)
    ensures i <= |ds|
    ensures i < |ds| ==> ds[i].link.sessionID == id
    ensures forall j :: 0 <= j < i ==> ds[j].link.sessionID != id
  {
    if ds == [] || ds[0].link.sessionID == id then 0 else 1 + FindBySessionID(ds[1..], id)
  }

  /** A MANAGE that was acted upon already. */
  predicate IsDuplicate(w: World, from: Netaddr, number: nat, id: nat) {
    var k := FindByAddress(w.dm.displays, from, number);
    && FindProto(w.protos, from, number) == |w.protos|
    && k < |w.dm.displays| && w.dm.displays[k].link.sessionID == id
  }

  /** The proto-display a MANAGE is for, with its display name. */
  predicate IsNamed(w: World, env: Env, from: Netaddr, number: nat, id: nat) {
    var i := FindProto(w.protos, from, number);
    i < |w.protos| && w.protos[i].sessionID == id && env.displayName(w.protos[i].connection, from, number).Some?
  }

  /** Finding out whether an indirect client gets the chooser reads past a pattern. */
  predicate ChooserOverruns(w: World, env: Env, c: Client) {
    c in w.indirect && SearchOverruns(env.db, c, env.hostname(c), true)
  }

  predicate Starts(w: World, env: Env, from: Netaddr, number: nat, id: nat) {
    IsNamed(w, env, from, number, id) && !ChooserOverruns(w, env, ClientOf(from))
  }

  function UsesChooser(w: World, env: Env, c: Client, now: int): bool {
    && c in w.indirect && ChooserEntry(env.db, c, env.hostname(c))
    && Lookup(w.choices, c, now, w.timeout).0 == None
  }

  /** An empty class is none; a class ends at its first NUL. */
  function ClassOf(displayClass: string): Option<string> {
    if displayClass == [] then None else Some(UpToNulChar(displayClass))
  }

  function UpToNulChar(s: string): string {
    if s == [] || s[0] == '\0' then [] else [s[0]] + UpToNulChar(s[1..])
  }

  function StartSession(w: World, env: Env, from: Netaddr, number: nat, id: nat, displayClass: string, now: int,
          o: Displays.Outcome): World
    requires Starts(w, env, from, number, id)
  {
    var i := FindProto(w.protos, from, number);
    var p, c := w.protos[i], ClientOf(from);
    var link := Displays.Link(id, from, number, UsesChooser(w, env, c, now), p.credentials.fileAuth);
    var asked := if c in w.indirect then Consult(w, env, c, now) else w;
    asked.(dm := Displays.TakeOver(w.dm, env.displayName(p.connection, from, number).value, ClassOf(displayClass), link,
                                   env.resources, o),
           protos := Dispose(w.protos, i),
           indirect := Drop(w.indirect, c),
           log := asked.log + [Started(id, from, number, link.useChooser, link.auth)])
  }

  function Manage(w: World, env: Env, from: Netaddr, number: nat, id: nat, displayClass: string, now: int,
          o: Displays.Outcome): World {
    var i := FindProto(w.protos, from, number);
    if i < |w.protos| && w.protos[i].sessionID == id then
      if Starts(w, env, from, number, id) then StartSession(w, env, from, number, id, displayClass, now, o)
      else if IsNamed(w, env, from, number, id) then Die(w.(indirect := Drop(w.indirect, ClientOf(from))))
      else w.(log := w.log + [SentFailed(from, id)])
    else if IsDuplicate(w, from, number, id) then w
    else w.(log := w.log + [Refused(from, id)])
  }

  // ---------------------------------------------------------------- KEEPALIVE

  function KeepAlive(w: World, from: Netaddr, number: nat, id: nat): World {
    var ds := w.dm.displays;
    var k := FindBySessionID(ds, id);
    var d := if k < |ds| then k else FindByAddress(ds, from, number);
    var running := d < |ds| && ds[d].status == Displays.Running;
    w.(log := w.log + [Alive(from, running && ds[d].link.sessionID == id, if running then ds[d].link.sessionID else 0)])
  }

  // ---------------------------------------------------------------- steps

  datatype Step =
    | Queried(env: Env, kind: QueryKind, from: Netaddr)
    | QueriedIndirectly(env: Env, from: Netaddr, now: int)
    | Requested(env: Env, packet: RequestPacket, now: int, random: Option<Bytes>)
    | ManageCame(env: Env, from: Netaddr, number: nat, id: nat, displayClass: string, now: int, outcome: Displays.Outcome)
    | KeepAliveCame(from: Netaddr, number: nat, id: nat)
    | ChooserReplied(client: Client, choice: Bytes, now: int)
    | Ran(step: Displays.Step)

  /** Packets as they can come; session processes and files change through `Ran`, sessions through MANAGE. */
  predicate Possible(step: Step) {
    match step
    case Queried(_, kind, _) => kind != IndirectQuery && kind != OnRequest
    case Requested(_, _, _, random) => random.Some? ==> |random.value| >= 16
    case Ran(s) => !s.TakenOver?
    case _ => true
  }

  function Next(w: World, step: Step): World
    requires Possible(step)
  {
    if !w.dm.alive then w else
    match step
    case Queried(env, kind, from) => Respond(w, env, kind, from)
    case QueriedIndirectly(env, from, now) => RespondIndirect(w, env, from, now)
    case Requested(env, packet, now, random) => Request(w, env, packet, now, random)
    case ManageCame(env, from, number, id, displayClass, now, o) => Manage(w, env, from, number, id, displayClass, now, o)
    case KeepAliveCame(from, number, id) => KeepAlive(w, from, number, id)
    case ChooserReplied(c, choice, now) =>
      w.(choices := Register(w.choices, c, choice, now), log := w.log + [Chosen(c, choice, now)])
    case Ran(s) => w.(dm := Displays.Next(w.dm, s))
  }

  predicate AllPossible(steps: seq<Step>) {
    forall i :: 0 <= i < |steps| ==> Possible(steps[i])
  }

  function Run(w: World, steps: seq<Step>): World
    requires AllPossible(steps)
    decreases steps
  {
    if steps == [] then w else Run(Next(w, steps[0]), steps[1..])
  }
}
