/**
 Displays and the list they are kept in (xdm/dm.c, xdm/dpylist.c, xdm/file.c): what starting,
 stopping, restarting, reaping and rescanning do to one display, and to the whole list.
 */
module Displays {
  import opened Options
  import opened Network

  type Pid = nat

  datatype Status = Running | NotRunning | Zombie | Phoenix
  datatype Location = Local | Foreign
  datatype Lifetime = Permanent | Transient
  datatype Origin = FromFile | FromXdmcp
  datatype DisplayType = DisplayType(location: Location, lifetime: Lifetime, origin: Origin)
  datatype FileState = NewEntry | OldEntry | MissingEntry

  /** The server resources the life cycle depends on. */
  datatype Resources = Resources(startAttempts: int, reservAttempts: int, terminateServer: bool)

  const DEFAULTS := Resources(4, 2, false)

  /** The resource database, as far as it says something about displays. */
  type Database = map<string, Resources>

  function LoadServerResources(db: Database, name: string): Resources {
    if name in db then db[name] else DEFAULTS
  }

  /** What an XDMCP display was managed with; `NO_LINK` for a display from the servers file. */
  datatype Link = Link(sessionID: nat, from: Netaddr, number: nat, useChooser: bool, auth: Option<Auth>)

  const NO_LINK := Link(0, Netaddr(AfUnspec, [], []), 0, false, None)

  /** `argv` is a null pointer until the servers file sets it, as it does for the displays it makes. */
  datatype Display = Display(
    name: string, cls: Option<string>, argv: Option<seq<string>>, displayType: DisplayType,
    status: Status, pid: Option<Pid>, serverPid: Option<Pid>, state: FileState,
    startTries: nat, reservTries: nat, lastReserv: int, resources: Resources, link: Link)

  // ---------------------------------------------------------------- one display

  /** fork: a pid no unreaped child has, or failure. */
  function Fork(children: set<Pid>, wish: Option<Pid>): (r: Option<Pid>)
    ensures r.Some? ==> r.value !in children
  {
    if wish.Some? && wish.value !in children then wish else None
  }

  /** What starting a server and forking a session come to. */
  datatype Outcome = Outcome(server: Option<Pid>, session: Option<Pid>)

  /** A display, or nothing when it was removed, and the unreaped children. */
  datatype Result = Result(display: Option<Display>, children: set<Pid>)

  function ForkSession(d: Display, children: set<Pid>, wish: Option<Pid>): Result {
    match Fork(children, wish)
    case None => Result(Some(d), children)
    case Some(p) => Result(Some(d.(pid := Some(p), status := Running)), children + {p})
  }

  function StartDisplay(d: Display, children: set<Pid>, db: Database, o: Outcome): Result {
    var d := d.(resources := LoadServerResources(db, d.name));
    if d.displayType.location == Local && d.serverPid == None then
      match Fork(children, o.server)
      case None => Result(None, children)
      case Some(p) => ForkSession(d.(serverPid := Some(p)), children + {p}, o.session)
    else
      ForkSession(d, children, o.session)
  }

  function StopDisplay(d: Display): Option<Display> {
    if d.serverPid.Some? then Some(d.(status := Zombie)) else None
  }

  function RestartDisplay(d: Display, forceReserver: bool): Display {
    if d.serverPid.Some? && (forceReserver || d.resources.terminateServer) then d.(status := Phoenix) else d.(status := NotRunning)
  }

  datatype Exit = Obeysess | Remanage | Unmanage | Reserver | OpenFailed | Terminated | Unknown

  const SIGTERM := 15

  function WaitCompose(sig: nat, core: nat, code: nat): nat {
    sig * 256 + core * 128 + code
  }

  function ExitOf(wait: nat): Exit {
    if wait == 0 then Obeysess
    else if wait == 1 then Remanage
    else if wait == 2 then Unmanage
    else if wait == 3 then Reserver
    else if wait == 4 then OpenFailed
    else if wait == WaitCompose(SIGTERM, 0, 0) then Terminated
    else Unknown
  }

  const XDM_BROKEN_INTERVAL := 120

  predicate Crash(d: Display, now: int) {
    d.lastReserv != 0 && now - d.lastReserv < XDM_BROKEN_INTERVAL
  }

  /** One more failed start; the display is given up at the limit. */
  function RetryStart(d: Display): Option<Display> {
    if d.displayType.origin == FromXdmcp || d.status == Zombie then StopDisplay(d)
    else
      var d := d.(startTries := d.startTries + 1);
      if d.startTries >= d.resources.startAttempts then StopDisplay(d) else Some(RestartDisplay(d, true))
  }

  /** Remembering the time in a display that is gone has no effect. */
  function Remember(d: Option<Display>, now: int): Option<Display> {
    if d == None then None else Some(d.value.(lastReserv := now))
  }

  function RetryServer(d: Display, now: int): Option<Display> {
    if d.displayType.origin == FromXdmcp || d.status == Zombie then StopDisplay(d)
    else
      var crash := Crash(d, now);
      var d := d.(reservTries := if crash then d.reservTries + 1 else 0);
      var stop := crash && d.reservTries >= d.resources.reservAttempts;
      Remember(if stop then StopDisplay(d) else Some(RestartDisplay(d, true)), now)
  }

  /** A display whose session was reaped. */
  function SessionExit(d: Display, exit: Exit, now: int): Option<Display> {
    var d := d.(pid := None);
    match exit
    case Obeysess =>
      var d := d.(startTries := 0, reservTries := 0);
      if d.displayType.lifetime != Permanent || d.status == Zombie then StopDisplay(d) else Some(RestartDisplay(d, false))
    case Remanage =>
      var d := d.(startTries := 0);
      if d.displayType.origin == FromXdmcp || d.status == Zombie then StopDisplay(d) else Some(RestartDisplay(d, false))
    case Reserver => RetryServer(d.(startTries := 0), now)
    case OpenFailed => RetryStart(d)
    case Terminated => RetryStart(d)
    case Unmanage => StopDisplay(d)
    case Unknown => StopDisplay(d)
  }

  /** A display whose server was reaped. */
  function ServerExit(d: Display): Option<Display> {
    var d := d.(serverPid := None);
    match d.status
    case Zombie => None
    case Phoenix => Some(d.(status := NotRunning))
    case Running => Some(d)
    case NotRunning => Some(d)
  }

  /** The display as `CheckDisplayStatus` leaves it. */
  function CheckDisplayStatus(d: Display, children: set<Pid>, db: Database, o: Outcome): Result {
    if d.displayType.origin != FromFile then Result(Some(d), children)
    else if d.state == MissingEntry then Result(StopDisplay(d), children)
    else
      var d := d.(state := OldEntry);
      if d.displayType.lifetime == Permanent && d.status == NotRunning then StartDisplay(d, children, db, o)
      else Result(Some(d), children)
  }

  predicate IsDynamic(d: Display) {
    d.displayType == DisplayType(d.displayType.location, Transient, FromFile) && d.status == NotRunning
  }

  // ---------------------------------------------------------------- the list

  /** Nothing is done any more once the manager is not alive: it has read through a null pointer. */
  datatype State = State(displays: seq<Display>, children: set<Pid>, alive: bool)

  /** The display at `i` replaced, or unlinked. */
  function Replace(ds: seq<Display>, i: nat, r: Option<Display>): (s: seq<Display>)
    requires i < |ds|
    ensures |s| == if r == None then |ds| - 1 else |ds|
  {
    if r == None then ds[..i] + ds[i + 1..] else ds[i := r.value]
  }

  function Update(st: State, i: nat, r: Result): State
    requires i < |st.displays|
  {
    st.(displays := Replace(st.displays, i, r.display), children := r.children)
  }

  function FirstNamed(ds: seq<Display>, name: string): (i: nat)
    ensures i <= |ds|
    ensures i < |ds| ==> ds[i].name == name
    ensures forall j :: 0 <= j < i ==> ds[j].name != name
  {
    if ds == [] || ds[0].name == name then 0 else 1 + FirstNamed(ds[1..], name)
  }

  function FirstWithPid(ds: seq<Display>, pid: Pid): (i: nat)
    ensures i <= |ds|
    ensures i < |ds| ==> ds[i].pid == Some(pid)
    ensures forall j :: 0 <= j < i ==> ds[j].pid != Some(pid)
  {
    if ds == [] || ds[0].pid == Some(pid) then 0 else 1 + FirstWithPid(ds[1..], pid)
  }

  function FirstWithServerPid(ds: seq<Display>, pid: Pid): (i: nat)
    ensures i <= |ds|
    ensures i < |ds| ==> ds[i].serverPid == Some(pid)
    ensures forall j :: 0 <= j < i ==> ds[j].serverPid != Some(pid)
  {
    if ds == [] || ds[0].serverPid == Some(pid) then 0 else 1 + FirstWithServerPid(ds[1..], pid)
  }

  function FirstDynamic(ds: seq<Display>): (i: nat)
    ensures i <= |ds|
    ensures i < |ds| ==> IsDynamic(ds[i])
    ensures forall j :: 0 <= j < i ==> !IsDynamic(ds[j])
  {
    if ds == [] || IsDynamic(ds[0]) then 0 else 1 + FirstDynamic(ds[1..])
  }

  function NewDisplay(name: string, cls: Option<string>): Display {
    Display(name, cls, None, DisplayType(Local, Permanent, FromFile),
            NotRunning, None, None, NewEntry, 0, 0, 0, Resources(0, 0, false), NO_LINK)
  }

  // ---------------------------------------------------------------- going over the list

  /** `ForEachDisplay(StopDisplay)` from position `i` on; a removed display makes room for the next. */
  function StopFrom(ds: seq<Display>, i: nat): seq<Display>
    requires i <= |ds|
    decreases |ds| - i
  {
    if i == |ds| then ds
    else
      var r := StopDisplay(ds[i]);
      StopFrom(Replace(ds, i, r), if r == None then i else i + 1)
  }

  /** `ForEachDisplay(CheckDisplayStatus)` from position `i` on, with what each start comes to. */
  function CheckFrom(st: State, i: nat, db: Database, os: seq<Outcome>): State
    requires i <= |st.displays|
    decreases |st.displays| - i
  {
    if i == |st.displays| then st
    else
      var r := CheckDisplayStatus(st.displays[i], st.children, db, OutcomeAt(os));
      CheckFrom(Update(st, i, r), if r.display == None then i else i + 1, db, if os == [] then [] else os[1..])
  }

  const FAILURE := Outcome(None, None)

  /** The next outcome; with none left, nothing can be started. */
  function OutcomeAt(os: seq<Outcome>): Outcome {
    if os == [] then FAILURE else os[0]
  }

  // ---------------------------------------------------------------- the servers file

  function MarkAll(ds: seq<Display>): (r: seq<Display>)
    ensures |r| == |ds|
  {
    seq(|ds|, i requires 0 <= i < |ds| => ds[i].(state := MissingEntry))
  }

  function KnownType(word: string): Option<DisplayType> {
    if word == "local" then Some(DisplayType(Local, Permanent, FromFile))
    else if word == "foreign" then Some(DisplayType(Foreign, Permanent, FromFile))
    else if word == "dynamic" then Some(DisplayType(Local, Transient, FromFile))
    else None
  }

  /** The second word is the display's class, because the third is a type and it is none. */
  predicate HasClass(words: seq<string>) {
    |words| > 2 && KnownType(words[1]) == None && KnownType(words[2]).Some?
  }

  function ClassOf(words: seq<string>): Option<string> {
    if HasClass(words) then Some(words[1]) else None
  }

  /** The type of a line: its second word, or its third after a class, or the default. */
  function TypeOf(words: seq<string>): (t: DisplayType)
    requires |words| >= 2
    ensures t.origin == FromFile
  {
    if HasClass(words) then KnownType(words[2]).value
    else if KnownType(words[1]).Some? then KnownType(words[1]).value
    else DisplayType(Local, Permanent, FromFile)
  }

  /** The server's arguments: what follows the type. */
  function ArgumentsOf(words: seq<string>): seq<string>
    requires |words| >= 2
  {
    if HasClass(words) then words[3..] else words[2..]
  }

  predicate NamesDisplay(words: seq<string>, name: string) {
    |words| >= 2 && words[0] == name
  }

  /** The line has a class and its display has none: the comparison of the two reads through a null pointer. */
  predicate ReadsNullClass(d: Display, words: seq<string>) {
    HasClass(words) && d.cls == None
  }

  /** So does freeing the arguments of a display that has none. */
  predicate ReadsNull(ds: seq<Display>, words: seq<string>) {
    |words| >= 2 &&
    var i := FirstNamed(ds, words[0]);
    i < |ds| && (ReadsNullClass(ds[i], words) || ds[i].argv == None)
  }

  /** What a line says of a display, as far as that is survived: its mark, class, type and arguments. */
  function Retype(d: Display, words: seq<string>): Display
    requires |words| >= 2
  {
    var marked := d.(state := OldEntry);
    if ReadsNullClass(d, words) then marked
    else
      var classed := if HasClass(words) then marked.(cls := ClassOf(words)) else marked;
      if d.argv == None then classed
      else classed.(displayType := TypeOf(words), argv := Some(ArgumentsOf(words)))
  }

  /** A line of the servers file finds its display by name, whatever that is, or makes a new one. */
  function ParseDisplay(ds: seq<Display>, words: seq<string>): seq<Display> {
    if |words| < 2 then ds
    else
      var i := FirstNamed(ds, words[0]);
      if i == |ds| then
        [NewDisplay(words[0], ClassOf(words)).(displayType := TypeOf(words), argv := Some(ArgumentsOf(words)))] + ds
      else ds[i := Retype(ds[i], words)]
  }

  /** The lines in order, as far as the manager lives to read them. */
  function ScanServers(ds: seq<Display>, lines: seq<seq<string>>): seq<Display>
    decreases lines
  {
    if lines == [] then ds
    else if ReadsNull(ds, lines[0]) then ParseDisplay(ds, lines[0])
    else ScanServers(ParseDisplay(ds, lines[0]), lines[1..])
  }

  predicate Survives(ds: seq<Display>, lines: seq<seq<string>>)
    decreases lines
  {
    lines == [] || (!ReadsNull(ds, lines[0]) && Survives(ParseDisplay(ds, lines[0]), lines[1..]))
  }

  // ---------------------------------------------------------------- steps

  /** Every display marked, and the servers file read. */
  function Reread(st: State, lines: seq<seq<string>>): State {
    st.(displays := ScanServers(MarkAll(st.displays), lines), alive := Survives(MarkAll(st.displays), lines))
  }

  /** The body of the reaping loop, with the rescan a changed servers file may cause. */
  function Reap(st: State, pid: Pid, exit: Exit, now: int, rescan: Option<seq<seq<string>>>): State {
    var mid := if rescan.Some? then Reread(st, rescan.value) else st;
    if !mid.alive then mid else Dispatch(mid, pid, exit, now)
  }

  /** Whose process it was, and what that means for it. */
  function Dispatch(st: State, pid: Pid, exit: Exit, now: int): State {
    var ds, left := st.displays, st.children - {pid};
    var i, k := FirstWithPid(ds, pid), FirstWithServerPid(ds, pid);
    if i < |ds| then st.(displays := Replace(ds, i, SessionExit(ds[i], exit, now)), children := left)
    else if k < |ds| then st.(displays := Replace(ds, k, ServerExit(ds[k])), children := left)
    else st.(children := left)
  }

  function StartDisplays(st: State, db: Database, os: seq<Outcome>): State {
    CheckFrom(st, 0, db, os)
  }

  function Rescan(st: State, lines: seq<seq<string>>, db: Database, os: seq<Outcome>): State {
    var mid := Reread(st, lines);
    if !mid.alive then mid else StartDisplays(mid, db, os)
  }

  function AddDynamic(st: State, db: Database, o: Outcome): State {
    var i := FirstDynamic(st.displays);
    if i == |st.displays| then st else Update(st, i, StartDisplay(st.displays[i], st.children, db, o))
  }

  function StopAll(st: State): State {
    st.(displays := StopFrom(st.displays, 0))
  }

  /** The display a MANAGE creates. */
  function Managed(name: string, cls: Option<string>, link: Link): Display {
    NewDisplay(name, cls).(displayType := DisplayType(Foreign, Transient, FromXdmcp), link := link)
  }

  function StopNamed(ds: seq<Display>, name: string): seq<Display> {
    var i := FirstNamed(ds, name);
    if i < |ds| then Replace(ds, i, StopDisplay(ds[i])) else ds
  }

  /** A MANAGE stops the first display of the name and starts a new one in front. */
  function TakeOver(st: State, name: string, cls: Option<string>, link: Link, db: Database, o: Outcome): State {
    var ds := [Managed(name, cls, link)] + StopNamed(st.displays, name);
    Update(st.(displays := ds), 0, StartDisplay(ds[0], st.children, db, o))
  }

  datatype Step =
    | Reaped(pid: Pid, exit: Exit, now: int, rescan: Option<seq<seq<string>>>)
    | Checked(db: Database, outcomes: seq<Outcome>)
    | Rescanned(lines: seq<seq<string>>, db: Database, outcomes: seq<Outcome>)
    | Added(db: Database, outcome: Outcome)
    | Stopped
    | TakenOver(name: string, cls: Option<string>, link: Link, db: Database, outcome: Outcome)

  function Next(st: State, step: Step): State {
    if !st.alive then st else
    match step
    case Reaped(pid, exit, now, rescan) => Reap(st, pid, exit, now, rescan)
    case Checked(db, os) => StartDisplays(st, db, os)
    case Rescanned(lines, db, os) => Rescan(st, lines, db, os)
    case Added(db, o) => AddDynamic(st, db, o)
    case Stopped => StopAll(st)
    case TakenOver(name, cls, link, db, o) => TakeOver(st, name, cls, link, db, o)
  }

  function Run(st: State, steps: seq<Step>): State
    decreases steps
  {
    if steps == [] then st else Run(Next(st, steps[0]), steps[1..])
  }
}
