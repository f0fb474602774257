/**
 Mark and sweep of the XDMCP listening sockets (xdm/socket.c): the open sockets, their multicast
 groups and the select mask are brought in line with the LISTEN entries of the access file.
 Joining and leaving a group is taken to succeed; binding an address may fail.
 */
module Listeners {
  import opened Bounds
  import opened Options
  import opened Network

  datatype Group = Group(addr: Bytes, ref: bool)

  datatype Sock = Sock(addr: Bytes, fd: nat, groups: seq<Group>, ref: bool)

  /** What the kernel was asked to do. */
  datatype Op =
    | Opened(addr: Bytes)
    | Closed(addr: Bytes)
    | Joined(addr: Bytes, group: Bytes)
    | Left(addr: Bytes, group: Bytes)

  const ANY4: Bytes := [0, 0, 0, 0]
  const ANY6: Bytes := ANY4 + ANY4 + ANY4 + ANY4

  predicate KnownLength(a: Bytes) {
    |a| == 4 || |a| == 16
  }

  // ---------------------------------------------------------------- the configuration

  /** An entry of the access file: the hosts of a LISTEN entry, or something that is not one. */
  datatype ConfigEntry = Listen(hosts: seq<Bytes>) | Other

  /** A LISTEN entry with hosts: an address, empty for the wildcard, and multicast groups. */
  datatype Line = Line(addr: Bytes, groups: seq<Bytes>)

  predicate ListenFound(entries: seq<ConfigEntry>) {
    exists i :: 0 <= i < |entries| && entries[i].Listen?
  }

  /** What to listen on: the wildcard and the default groups, unless there is a LISTEN entry, even one without hosts. */
  function Lines(entries: seq<ConfigEntry>, defaultGroups: seq<Bytes>): seq<Line> {
    if ListenFound(entries) then LinesOf(entries) else [Line([], defaultGroups)]
  }

  function LinesOf(entries: seq<ConfigEntry>): seq<Line> {
    if entries == [] then [] else LinesOf(entries[..|entries| - 1]) + LineOf(entries[|entries| - 1])
  }

  function LineOf(e: ConfigEntry): seq<Line> {
    if e.Listen? && e.hosts != [] then [Line(e.hosts[0], e.hosts[1..])] else []
  }

  /** The socket a line stands for, when these addresses are open or can be bound. */
  function Target(addr: Bytes, available: set<Bytes>): Option<Bytes> {
    if addr == [] then
      if ANY6 in available then Some(ANY6) else if ANY4 in available then Some(ANY4) else None
    else if addr in available && KnownLength(addr) then Some(addr)
    else None
  }

  /** The addresses a configuration asks for. */
  ghost function Targets(lines: seq<Line>, available: set<Bytes>): set<Bytes> {
    set i | 0 <= i < |lines| && Target(lines[i].addr, available).Some? :: Target(lines[i].addr, available).value
  }

  /** The groups a configuration asks for at an address. */
  ghost function Wanted(lines: seq<Line>, available: set<Bytes>, a: Bytes): set<Bytes> {
    if lines == [] then {}
    else Wanted(lines[..|lines| - 1], available, a) + WantedBy(lines[|lines| - 1], available, a)
  }

  ghost function WantedBy(line: Line, available: set<Bytes>, a: Bytes): set<Bytes> {
    if Target(line.addr, available) == Some(a) then set g | g in line.groups && KnownLength(g) else {}
  }

  lemma OneMoreLine(lines: seq<Line>, line: Line, available: set<Bytes>)
    ensures Targets(lines + [line], available)
         == Targets(lines, available) + (var t := Target(line.addr, available); if t.Some? then {t.value} else {})
  {
    var more := lines + [line];
    assert more[|lines|] == line && forall i :: 0 <= i < |lines| ==> more[i] == lines[i];
  }

  lemma OneMoreWanted(lines: seq<Line>, line: Line, available: set<Bytes>, a: Bytes)
    ensures Wanted(lines + [line], available, a) == Wanted(lines, available, a) + WantedBy(line, available, a)
  {
    assert (lines + [line])[..|lines|] == lines;
  }

  lemma {:induction false} WantedAtTargets(lines: seq<Line>, available: set<Bytes>, a: Bytes)
    requires a !in Targets(lines, available)
    ensures Wanted(lines, available, a) == {}
  {
    if lines != [] {
      var rest := lines[..|lines| - 1];
      assert lines == rest + [lines[|lines| - 1]];
      OneMoreLine(rest, lines[|lines| - 1], available);
      WantedAtTargets(rest, available, a);
    }
  }

  // ---------------------------------------------------------------- lists of groups

  function Names(gs: seq<Group>): set<Bytes> {
    set i | 0 <= i < |gs| :: gs[i].addr
  }

  function Marked(gs: seq<Group>): set<Bytes> {
    set i | 0 <= i < |gs| && gs[i].ref :: gs[i].addr
  }

  predicate DistinctGroups(gs: seq<Group>) {
    forall i, j :: 0 <= i < j < |gs| ==> gs[i].addr != gs[j].addr
  }

  lemma JoinGroup(gs: seq<Group>, a: Bytes)
    requires DistinctGroups(gs) && a !in Names(gs)
    ensures var r := [Group(a, true)] + gs;
            DistinctGroups(r) && Names(r) == Names(gs) + {a} && Marked(r) == Marked(gs) + {a}
  {
    var r := [Group(a, true)] + gs;
    assert r[0].addr == a && forall i :: 0 <= i < |gs| ==> r[i + 1] == gs[i];
  }

  lemma MarkGroup(gs: seq<Group>, i: nat)
    requires DistinctGroups(gs) && i < |gs|
    ensures var r := gs[i := gs[i].(ref := true)];
            DistinctGroups(r) && Names(r) == Names(gs) && Marked(r) == Marked(gs) + {gs[i].addr}
  {
    var r := gs[i := gs[i].(ref := true)];
    assert forall j :: 0 <= j < |gs| ==> r[j].addr == gs[j].addr;
    assert r[i].addr == gs[i].addr;
  }

  lemma DropGroup(gs: seq<Group>, i: nat)
    requires DistinctGroups(gs) && i < |gs| && !gs[i].ref
    ensures var r := gs[..i] + gs[i + 1..];
            DistinctGroups(r) && Names(r) == Names(gs) - {gs[i].addr} && Marked(r) == Marked(gs)
  {
    var r := gs[..i] + gs[i + 1..];
    assert forall j :: 0 <= j < i ==> r[j] == gs[j];
    assert forall j :: i < j < |gs| ==> r[j - 1] == gs[j];
  }

  lemma AllMarked(gs: seq<Group>)
    requires forall i :: 0 <= i < |gs| ==> gs[i].ref
    ensures Names(gs) == Marked(gs)
  {
  }

  // ---------------------------------------------------------------- lists of sockets

  /** The entry at an address. */
  function Get(socks: seq<Sock>, a: Bytes): (r: Option<Sock>)
    ensures r.Some? ==> r.value.addr == a && r.value in socks
  {
    if socks == [] then None
    else if socks[0].addr == a then Some(socks[0])
    else Get(socks[1..], a)
  }

  ghost function Addresses(socks: seq<Sock>): set<Bytes> {
    set i | 0 <= i < |socks| :: socks[i].addr
  }

  function Descriptors(socks: seq<Sock>): set<nat> {
    set i | 0 <= i < |socks| :: socks[i].fd
  }

  predicate Distinct(socks: seq<Sock>) {
    && (forall i, j :: 0 <= i < j < |socks| ==> socks[i].addr != socks[j].addr && socks[i].fd != socks[j].fd)
    && (forall i :: 0 <= i < |socks| ==> DistinctGroups(socks[i].groups))
  }

  lemma {:induction false} GetAt(socks: seq<Sock>, i: nat)
    requires Distinct(socks) && i < |socks|
    ensures Get(socks, socks[i].addr) == Some(socks[i])
  {
    if i > 0 {
      assert socks[0].addr != socks[i].addr;
      GetAt(socks[1..], i - 1);
    }
  }

  lemma GetInAddresses(socks: seq<Sock>, a: Bytes)
    requires Distinct(socks)
    ensures Get(socks, a).Some? <==> a in Addresses(socks)
  {
    if a in Addresses(socks) {
      var i :| 0 <= i < |socks| && socks[i].addr == a;
      GetAt(socks, i);
    }
  }

  lemma {:induction false} GetUpdated(socks: seq<Sock>, i: nat, s: Sock, a: Bytes)
    requires Distinct(socks) && i < |socks| && s.addr == socks[i].addr
    ensures Get(socks[i := s], a) == if a == s.addr then Some(s) else Get(socks, a)
  {
    if i > 0 {
      assert socks[0].addr != socks[i].addr;
      assert socks[i := s][1..] == socks[1..][i - 1 := s];
      GetUpdated(socks[1..], i - 1, s, a);
    } else {
      assert socks[i := s][1..] == socks[1..];
    }
  }

  lemma TailIsDistinct(socks: seq<Sock>, i: nat)
    requires Distinct(socks) && 0 < i < |socks|
    ensures Distinct(socks[1..]) && socks[0].addr != socks[i].addr
  {
  }

  lemma {:induction false} GetRemoved(socks: seq<Sock>, i: nat, a: Bytes)
    requires Distinct(socks) && i < |socks|
    ensures Get(socks[..i] + socks[i + 1..], a) == if a == socks[i].addr then None else Get(socks, a)
  {
    var r := socks[..i] + socks[i + 1..];
    if i > 0 {
      TailIsDistinct(socks, i);
      hide Distinct;
      assert r[0] == socks[0] && r[1..] == socks[1..][..i - 1] + socks[1..][i..];
      GetRemoved(socks[1..], i - 1, a);
    } else {
      assert r == socks[1..];
      FirstIsAlone(socks);
      hide Distinct;
    }
  }

  lemma FirstIsAlone(socks: seq<Sock>)
    requires Distinct(socks) && socks != []
    ensures Get(socks[1..], socks[0].addr) == None
  {
    GetElsewhere(socks[1..], socks[0].addr);
  }

  lemma {:induction false} GetElsewhere(socks: seq<Sock>, a: Bytes)
    requires forall i :: 0 <= i < |socks| ==> socks[i].addr != a
    ensures Get(socks, a) == None
  {
    if socks != [] {
      GetElsewhere(socks[1..], a);
    }
  }

  lemma DescriptorsUpdated(socks: seq<Sock>, i: nat, s: Sock)
    requires i < |socks| && s.fd == socks[i].fd
    ensures Descriptors(socks[i := s]) == Descriptors(socks)
  {
    var r := socks[i := s];
    assert forall j :: 0 <= j < |socks| ==> r[j].fd == socks[j].fd;
  }

  lemma DescriptorsPrepended(socks: seq<Sock>, s: Sock)
    ensures Descriptors([s] + socks) == {s.fd} + Descriptors(socks)
  {
    var r := [s] + socks;
    assert r[0] == s && forall j :: 0 <= j < |socks| ==> r[j + 1] == socks[j];
  }

  lemma DescriptorsRemoved(socks: seq<Sock>, i: nat)
    requires Distinct(socks) && i < |socks|
    ensures Descriptors(socks[..i] + socks[i + 1..]) == Descriptors(socks) - {socks[i].fd}
  {
    var r := socks[..i] + socks[i + 1..];
    assert forall j :: 0 <= j < i ==> r[j] == socks[j];
    assert forall j :: i < j < |socks| ==> r[j - 1] == socks[j];
  }

  lemma FreshDescriptor(used: set<nat>)
    ensures exists f: nat :: f !in used
  {
    var bound := BoundOf(used);
    assert bound !in used;
  }

  // ---------------------------------------------------------------- the two phases

  /** Where marking takes the entry of an address that is a target or not, with these groups wanted. */
  predicate IsMarked(before: Option<Sock>, after: Option<Sock>, target: bool, wanted: set<Bytes>) {
    && (after.Some? <==> before.Some? || target)
    && (after.Some? ==> (after.value.ref <==> target) && Marked(after.value.groups) == wanted)
    && (after.Some? && before == None ==> Names(after.value.groups) == wanted)
    && (after.Some? && before.Some? ==>
          after.value.fd == before.value.fd && Names(after.value.groups) == Names(before.value.groups) + wanted)
  }

  ghost predicate MarkedFor(before: seq<Sock>, after: seq<Sock>, lines: seq<Line>, available: set<Bytes>) {
    forall a :: IsMarked(Get(before, a), Get(after, a), a in Targets(lines, available), Wanted(lines, available, a))
  }

  /** An operation is called for by a difference between the old sockets and the configuration. */
  ghost predicate Justified(op: Op, before: seq<Sock>, lines: seq<Line>, available: set<Bytes>) {
    match op
    case Opened(a) => Get(before, a) == None && a in Targets(lines, available)
    case Closed(a) => Get(before, a).Some? && a !in Targets(lines, available)
    case Joined(a, g) =>
      && g in Wanted(lines, available, a)
      && (Get(before, a).Some? ==> g !in Names(Get(before, a).value.groups))
    case Left(a, g) =>
      && a in Targets(lines, available) && g !in Wanted(lines, available, a)
      && Get(before, a).Some? && g in Names(Get(before, a).value.groups)
  }

  ghost predicate AllJustified(ops: seq<Op>, before: seq<Sock>, lines: seq<Line>, available: set<Bytes>) {
    forall i :: 0 <= i < |ops| ==> Justified(ops[i], before, lines, available)
  }

  /** What one call does to the entry of an address: marked if it is the target, created if missing. */
  predicate Touched(before: Option<Sock>, after: Option<Sock>, target: bool) {
    && (!target ==> after == before)
    && (target && before.Some? ==> after == Some(before.value.(ref := true)))
    && (target && before == None ==> after.Some? && after.value.ref && after.value.groups == [])
  }

  ghost predicate TouchedAt(before: seq<Sock>, after: seq<Sock>, target: Option<Bytes>) {
    forall a :: Touched(Get(before, a), Get(after, a), target == Some(a))
  }

  /** What joining or marking a group does to the entry of an address. */
  predicate Grouped(before: Option<Sock>, after: Option<Sock>, target: bool, g: Bytes) {
    && (!target ==> after == before)
    && (target ==>
          && before.Some? && after.Some? && after == Some(before.value.(groups := after.value.groups))
          && Names(after.value.groups) == Names(before.value.groups) + {g}
          && Marked(after.value.groups) == Marked(before.value.groups) + {g})
  }

  ghost predicate GroupedAt(before: seq<Sock>, after: seq<Sock>, target: Option<Bytes>, g: Bytes) {
    forall a :: Grouped(Get(before, a), Get(after, a), target == Some(a), g)
  }

  lemma ListenerIsMarked(before: seq<Sock>, mid: seq<Sock>, after: seq<Sock>, done: seq<Line>, addr: Bytes,
          available: set<Bytes>)
    requires MarkedFor(before, mid, done, available)
    requires TouchedAt(mid, after, Target(addr, available))
    ensures MarkedFor(before, after, done + [Line(addr, [])], available)
  {
    hide Targets, Wanted;
    var line := Line(addr, []);
    forall a
      ensures IsMarked(Get(before, a), Get(after, a), a in Targets(done + [line], available), Wanted(done + [line], available, a))
    {
      hide Get;
      OneMoreLine(done, line, available);
      OneMoreWanted(done, line, available, a);
      assert IsMarked(Get(before, a), Get(mid, a), a in Targets(done, available), Wanted(done, available, a));
      assert Touched(Get(mid, a), Get(after, a), Target(addr, available) == Some(a));
      if a !in Targets(done, available) {
        WantedAtTargets(done, available, a);
      }
    }
  }

  lemma GroupIsMarked(before: seq<Sock>, mid: seq<Sock>, after: seq<Sock>, done: seq<Line>, line: Line, g: Bytes,
          available: set<Bytes>)
    requires MarkedFor(before, mid, done + [line], available) && KnownLength(g)
    requires GroupedAt(mid, after, Target(line.addr, available), g)
    ensures MarkedFor(before, after, done + [line.(groups := line.groups + [g])], available)
  {
    hide Targets, Wanted;
    var more := line.(groups := line.groups + [g]);
    forall a
      ensures IsMarked(Get(before, a), Get(after, a), a in Targets(done + [more], available), Wanted(done + [more], available, a))
    {
      hide Get, Names, Marked;
      OneMoreLine(done, line, available);
      OneMoreWanted(done, line, available, a);
      OneMoreLine(done, more, available);
      OneMoreWanted(done, more, available, a);
      assert IsMarked(Get(before, a), Get(mid, a), a in Targets(done + [line], available), Wanted(done + [line], available, a));
      assert Grouped(Get(mid, a), Get(after, a), Target(line.addr, available) == Some(a), g);
    }
  }

  lemma NothingIsMarked(before: seq<Sock>, mid: seq<Sock>, done: seq<Line>, line: Line, g: Bytes, available: set<Bytes>)
    requires MarkedFor(before, mid, done + [line], available)
    requires !KnownLength(g) || Target(line.addr, available) == None
    ensures MarkedFor(before, mid, done + [line.(groups := line.groups + [g])], available)
  {
    hide Targets, Wanted, Get, Names, Marked;
    var more := line.(groups := line.groups + [g]);
    forall a
      ensures IsMarked(Get(before, a), Get(mid, a), a in Targets(done + [more], available), Wanted(done + [more], available, a))
    {
      OneMoreLine(done, line, available);
      OneMoreWanted(done, line, available, a);
      OneMoreLine(done, more, available);
      OneMoreWanted(done, more, available, a);
      assert IsMarked(Get(before, a), Get(mid, a), a in Targets(done + [line], available), Wanted(done + [line], available, a));
    }
  }

  /** What marking asks of the kernel stays called for as more lines are read. */
  ghost predicate MarkOps(ops: seq<Op>, before: seq<Sock>, lines: seq<Line>, available: set<Bytes>) {
    forall i :: 0 <= i < |ops| ==> (ops[i].Opened? || ops[i].Joined?) && Justified(ops[i], before, lines, available)
  }

  lemma MarkOpsGrow(ops: seq<Op>, before: seq<Sock>, done: seq<Line>, line: Line, g: Bytes, available: set<Bytes>)
    requires MarkOps(ops, before, done, available) || MarkOps(ops, before, done + [line], available)
    ensures MarkOps(ops, before, done + [line], available)
    ensures MarkOps(ops, before, done + [line.(groups := line.groups + [g])], available)
  {
    hide Targets, Wanted, Get, Names, Marked;
    var more := line.(groups := line.groups + [g]);
    OneMoreLine(done, line, available);
    OneMoreLine(done, more, available);
    forall a ensures Wanted(done, available, a) <= Wanted(done + [line], available, a) <= Wanted(done + [more], available, a) {
      OneMoreWanted(done, line, available, a);
      OneMoreWanted(done, more, available, a);
    }
  }

  // ---------------------------------------------------------------- the sockets in use

  /** The select mask and the kernel's memberships are those of the listed sockets. */
  ghost predicate Consistent(socks: seq<Sock>, chooser: set<nat>, mask: set<nat>, joined: map<nat, set<Bytes>>) {
    && Distinct(socks)
    && Descriptors(socks) !! chooser
    && mask == Descriptors(socks) + chooser
    && joined.Keys == Descriptors(socks)
    && (forall i :: 0 <= i < |socks| ==> socks[i].fd in joined && joined[socks[i].fd] == Names(socks[i].groups))
  }

  ghost predicate KnownLengths(socks: seq<Sock>) {
    forall i :: 0 <= i < |socks| ==>
      KnownLength(socks[i].addr) && forall g :: g in Names(socks[i].groups) ==> KnownLength(g)
  }

  lemma DistinctPrepended(socks: seq<Sock>, s: Sock)
    requires Distinct(socks) && DistinctGroups(s.groups)
    requires s.addr !in Addresses(socks) && s.fd !in Descriptors(socks)
    ensures Distinct([s] + socks)
  {
    hide DistinctGroups;
    var r := [s] + socks;
    forall j | 0 < j < |r| ensures r[j] == socks[j - 1] && r[j].addr in Addresses(socks) && r[j].fd in Descriptors(socks) {
    }
    hide Addresses, Descriptors;
    forall i, j | 0 <= i < j < |r| ensures r[i].addr != r[j].addr && r[i].fd != r[j].fd {
      assert r[j] == socks[j - 1];
      assert i > 0 ==> r[i] == socks[i - 1];
    }
  }

  lemma DistinctRemoved(socks: seq<Sock>, i: nat)
    requires Distinct(socks) && i < |socks|
    ensures Distinct(socks[..i] + socks[i + 1..])
  {
    hide DistinctGroups;
    var r := socks[..i] + socks[i + 1..];
    assert forall j :: 0 <= j < |r| ==> r[j] == socks[if j < i then j else j + 1];
  }

  lemma ConsistentOpened(socks: seq<Sock>, s: Sock, chooser: set<nat>, mask: set<nat>, joined: map<nat, set<Bytes>>)
    requires Consistent(socks, chooser, mask, joined)
    requires s.fd !in mask && Get(socks, s.addr) == None && s.groups == []
    ensures Consistent([s] + socks, chooser, mask + {s.fd}, joined[s.fd := {}])
  {
    GetInAddresses(socks, s.addr);
    DescriptorsPrepended(socks, s);
    DistinctPrepended(socks, s);
    assert forall i :: 0 <= i < |socks| ==> socks[i].fd in Descriptors(socks);
    assert Names(s.groups) == {};
    hide Names, Distinct, Descriptors;
    var r := [s] + socks;
    assert forall i :: 0 < i < |r| ==> r[i] == socks[i - 1];
  }

  lemma ConsistentUpdated(socks: seq<Sock>, i: nat, s: Sock, chooser: set<nat>, mask: set<nat>, joined: map<nat,
          set<Bytes>>)
    requires Consistent(socks, chooser, mask, joined) && i < |socks|
    requires s.addr == socks[i].addr && s.fd == socks[i].fd && DistinctGroups(s.groups)
    ensures Consistent(socks[i := s], chooser, mask, joined[s.fd := Names(s.groups)])
  {
    hide Names;
    DescriptorsUpdated(socks, i, s);
    hide Descriptors;
  }

  lemma ConsistentRemoved(socks: seq<Sock>, i: nat, chooser: set<nat>, mask: set<nat>, joined: map<nat, set<Bytes>>)
    requires Consistent(socks, chooser, mask, joined) && i < |socks|
    ensures Consistent(socks[..i] + socks[i + 1..], chooser, mask - {socks[i].fd}, joined - {socks[i].fd})
  {
    assert socks[i].fd in Descriptors(socks);
    DescriptorsRemoved(socks, i);
    DistinctRemoved(socks, i);
    assert forall j :: 0 <= j < |socks| && j != i ==> socks[j].fd != socks[i].fd;
    hide Names, Distinct, Descriptors;
    var r := socks[..i] + socks[i + 1..];
    assert forall j :: 0 <= j < |r| ==> r[j] == socks[if j < i then j else j + 1];
  }

  lemma NoTargetTouchesNothing(socks: seq<Sock>)
    ensures TouchedAt(socks, socks, None)
  {
  }

  lemma AddressesTouched(before: seq<Sock>, after: seq<Sock>, t: Option<Bytes>, available: set<Bytes>)
    requires Distinct(before) && Distinct(after)
    requires TouchedAt(before, after, t) && (t.Some? ==> t.value in available)
    ensures Addresses(before) <= Addresses(after) && Addresses(after) <= Addresses(before) + available
  {
    forall a ensures a in Addresses(after) <==> a in Addresses(before) || t == Some(a) {
      hide Addresses;
      GetInAddresses(before, a);
      GetInAddresses(after, a);
      assert Touched(Get(before, a), Get(after, a), t == Some(a));
    }
  }

  lemma AddressesGrouped(before: seq<Sock>, after: seq<Sock>, t: Option<Bytes>, g: Bytes)
    requires Distinct(before) && Distinct(after) && GroupedAt(before, after, t, g)
    ensures Addresses(before) == Addresses(after)
  {
    forall a ensures a in Addresses(after) <==> a in Addresses(before) {
      hide Addresses;
      GetInAddresses(before, a);
      GetInAddresses(after, a);
      assert Grouped(Get(before, a), Get(after, a), t == Some(a), g);
    }
  }

  lemma OpeningIsJustified(before: seq<Sock>, mid: seq<Sock>, done: seq<Line>, line: Line, a: Bytes,
          available: set<Bytes>)
    requires MarkedFor(before, mid, done, available)
    requires Target(line.addr, available) == Some(a) && Get(mid, a) == None
    ensures Justified(Opened(a), before, done + [line], available)
  {
    OneMoreLine(done, line, available);
    assert IsMarked(Get(before, a), Get(mid, a), a in Targets(done, available), Wanted(done, available, a));
  }

  lemma JoiningIsJustified(before: seq<Sock>, mid: seq<Sock>, done: seq<Line>, line: Line, a: Bytes, g: Bytes,
          available: set<Bytes>)
    requires MarkedFor(before, mid, done + [line], available) && KnownLength(g)
    requires Target(line.addr, available) == Some(a) && Get(mid, a).Some? && g !in Names(Get(mid, a).value.groups)
    ensures Justified(Joined(a, g), before, done + [line.(groups := line.groups + [g])], available)
  {
    hide Names, Marked;
    OneMoreWanted(done, line.(groups := line.groups + [g]), available, a);
    assert IsMarked(Get(before, a), Get(mid, a), a in Targets(done + [line], available), Wanted(done + [line], available, a));
  }

  /** How far marking has come: these lines are done, and the kernel was asked for nothing else. */
  ghost predicate Marking(socks: seq<Sock>, log: seq<Op>, before: seq<Sock>, start: seq<Op>, done: seq<Line>,
          available: set<Bytes>, bindable: set<Bytes>) {
    && available == Addresses(socks) + bindable
    && MarkedFor(before, socks, done, available)
    && start <= log && MarkOps(log[|start|..], before, done, available)
  }

  /** The closure handed from callback to callback points at the socket of the address. */
  predicate Points(closure: Option<nat>, socks: seq<Sock>, t: Option<Bytes>) {
    if closure == None then t == None else closure.value < |socks| && t == Some(socks[closure.value].addr)
  }

  lemma MarkingMeans(socks: seq<Sock>, log: seq<Op>, before: seq<Sock>, start: seq<Op>, done: seq<Line>,
          available: set<Bytes>, bindable: set<Bytes>)
    ensures Marking(socks, log, before, start, done, available, bindable) <==>
              && available == Addresses(socks) + bindable
              && MarkedFor(before, socks, done, available)
              && start <= log && MarkOps(log[|start|..], before, done, available)
  {
  }

  /** At most one more operation, which is justified. */
  lemma MarkOpsExtend(start: seq<Op>, asked: seq<Op>, log: seq<Op>, before: seq<Sock>, lines: seq<Line>,
          available: set<Bytes>)
    requires start <= asked && MarkOps(asked[|start|..], before, lines, available)
    requires log == asked
             || (&& |log| == |asked| + 1 && log == asked + [log[|asked|]]
                 && (log[|asked|].Opened? || log[|asked|].Joined?) && Justified(log[|asked|], before, lines, available))
    ensures start <= log && MarkOps(log[|start|..], before, lines, available)
  {
    hide Justified;
    assert log[|start|..] == asked[|start|..] + log[|asked|..];
  }

  lemma TargetIsAvailable(addr: Bytes, available: set<Bytes>)
    ensures Target(addr, available).Some? ==> Target(addr, available).value in available
  {
  }

  lemma ListenerMarks(mid: seq<Sock>, asked: seq<Op>, after: seq<Sock>, log: seq<Op>, before: seq<Sock>,
          start: seq<Op>, done: seq<Line>, addr: Bytes,
                      available: set<Bytes>, bindable: set<Bytes>)
    requires Marking(mid, asked, before, start, done, available, bindable) && Distinct(mid) && Distinct(after)
    requires var t := Target(addr, available);
             && (t == None ==> after == mid)
             && (t.Some? ==> TouchedAt(mid, after, t))
             && log == asked + (if t.Some? && Get(mid, t.value) == None then [Opened(t.value)] else [])
    ensures Marking(after, log, before, start, done + [Line(addr, [])], available, bindable)
  {
    hide *;
    var t, line := Target(addr, available), Line(addr, []);
    MarkingMeans(mid, asked, before, start, done, available, bindable);
    TargetIsAvailable(addr, available);
    MarkOpsGrow(asked[|start|..], before, done, line, [], available);
    if t == None {
      NoTargetTouchesNothing(mid);
    } else {
      AddressesTouched(mid, after, t, available);
      if Get(mid, t.value) == None {
        OpeningIsJustified(before, mid, done, line, t.value, available);
      }
    }
    MarkOpsExtend(start, asked, log, before, done + [line], available);
    ListenerIsMarked(before, mid, after, done, addr, available);
    MarkingMeans(after, log, before, start, done + [line], available, bindable);
  }

  lemma GroupMarks(mid: seq<Sock>, asked: seq<Op>, after: seq<Sock>, log: seq<Op>, before: seq<Sock>,
          start: seq<Op>, done: seq<Line>, line: Line, g: Bytes,
                   available: set<Bytes>, bindable: set<Bytes>)
    requires Marking(mid, asked, before, start, done + [line], available, bindable) && Distinct(mid) && Distinct(after)
    requires var t := Target(line.addr, available);
             if t == None || !KnownLength(g) then after == mid && log == asked
             else
               && GroupedAt(mid, after, t, g) && Get(mid, t.value).Some?
               && log == asked + (if g in Names(Get(mid, t.value).value.groups) then [] else [Joined(t.value, g)])
    ensures Marking(after, log, before, start, done + [line.(groups := line.groups + [g])], available, bindable)
  {
    hide Target, Targets, Wanted;
    var t := Target(line.addr, available);
    MarkOpsGrow(asked[|start|..], before, done, line, g, available);
    if t == None || !KnownLength(g) {
      NothingIsMarked(before, mid, done, line, g, available);
    } else {
      AddressesGrouped(mid, after, t, g);
      GroupIsMarked(before, mid, after, done, line, g, available);
      if g !in Names(Get(mid, t.value).value.groups) {
        JoiningIsJustified(before, mid, done, line, t.value, g, available);
      }
    }
    hide Distinct, Justified, MarkedFor, GroupedAt, Addresses, Get, Names;
    assert log[|start|..] == asked[|start|..] + log[|asked|..];
  }

  predicate SweptGroups(s: Sock, gs: seq<Group>) {
    DistinctGroups(gs) && Marked(gs) == Marked(s.groups) && Names(gs) <= Names(s.groups)
  }

  predicate OnlyLeft(ops: seq<Op>, s: Sock) {
    forall n :: 0 <= n < |ops| ==>
      ops[n].Left? && ops[n].addr == s.addr && ops[n].group in Names(s.groups) && ops[n].group !in Marked(s.groups)
  }

  lemma EndSweep(s: Sock, gs: seq<Group>)
    requires SweptGroups(s, gs) && forall i :: 0 <= i < |gs| ==> gs[i].ref
    ensures Names(gs) == Marked(s.groups) && DistinctGroups(gs)
  {
    AllMarked(gs);
  }

  lemma DropSwept(s: Sock, gs: seq<Group>, k: nat, ops: seq<Op>)
    requires SweptGroups(s, gs) && k < |gs| && !gs[k].ref && OnlyLeft(ops, s)
    ensures SweptGroups(s, gs[..k] + gs[k + 1..]) && OnlyLeft(ops + [Left(s.addr, gs[k].addr)], s)
  {
    assert gs[k].addr in Names(gs) && gs[k].addr !in Marked(gs);
    DropGroup(gs, k);
  }

  lemma GroupsUpdated(socks: seq<Sock>, i: nat, s: Sock, g: Bytes)
    requires Distinct(socks) && i < |socks| && s == socks[i].(groups := s.groups)
    requires Names(s.groups) == Names(socks[i].groups) + {g} && Marked(s.groups) == Marked(socks[i].groups) + {g}
    ensures GroupedAt(socks, socks[i := s], Some(s.addr), g)
  {
    GetAt(socks, i);
    forall a ensures Get(socks[i := s], a) == if a == s.addr then Some(s) else Get(socks, a) {
      GetUpdated(socks, i, s, a);
    }
  }

  lemma KnownLengthsUpdated(socks: seq<Sock>, i: nat, s: Sock, g: Bytes)
    requires KnownLengths(socks) && i < |socks| && s.addr == socks[i].addr
    requires Names(s.groups) == Names(socks[i].groups) + {g} && KnownLength(g)
    ensures KnownLengths(socks[i := s])
  {
    hide Names;
  }

  lemma GroupsSet(socks: seq<Sock>, i: nat, s: Sock, g: Bytes, chooser: set<nat>, mask: set<nat>,
          joined: map<nat, set<Bytes>>)
    requires Consistent(socks, chooser, mask, joined) && KnownLengths(socks)
    requires i < |socks| && s == socks[i].(groups := s.groups) && DistinctGroups(s.groups) && KnownLength(g)
    requires Names(s.groups) == Names(socks[i].groups) + {g} && Marked(s.groups) == Marked(socks[i].groups) + {g}
    ensures Consistent(socks[i := s], chooser, mask, joined[s.fd := Names(s.groups)])
    ensures KnownLengths(socks[i := s]) && GroupedAt(socks, socks[i := s], Some(s.addr), g)
  {
    hide KnownLengths, GroupedAt, Distinct, Names, Marked;
    ConsistentUpdated(socks, i, s, chooser, mask, joined);
    GroupsUpdated(socks, i, s, g);
    KnownLengthsUpdated(socks, i, s, g);
  }

  // ---------------------------------------------------------------- clearing and sweeping

  function Unmarked(gs: seq<Group>): (r: seq<Group>)
    ensures |r| == |gs|
  {
    seq(|gs|, k requires 0 <= k < |gs| => gs[k].(ref := false))
  }

  function UnmarkedSock(s: Sock): Sock {
    s.(ref := false, groups := Unmarked(s.groups))
  }

  lemma UnmarkedNames(gs: seq<Group>)
    ensures Names(Unmarked(gs)) == Names(gs) && Marked(Unmarked(gs)) == {}
    ensures DistinctGroups(gs) ==> DistinctGroups(Unmarked(gs))
  {
    var r := Unmarked(gs);
    assert forall k :: 0 <= k < |gs| ==> r[k].addr == gs[k].addr && !r[k].ref;
  }

  lemma {:induction false} GetUnmarked(socks: seq<Sock>, cleared: seq<Sock>, a: Bytes)
    requires |cleared| == |socks| && forall i :: 0 <= i < |socks| ==> cleared[i] == UnmarkedSock(socks[i])
    ensures Get(cleared, a) == if Get(socks, a) == None then None else Some(UnmarkedSock(Get(socks, a).value))
  {
    if socks != [] {
      GetUnmarked(socks[1..], cleared[1..], a);
    }
  }

  lemma ClearedIsMarked(socks: seq<Sock>, cleared: seq<Sock>, available: set<Bytes>)
    requires |cleared| == |socks| && forall i :: 0 <= i < |socks| ==> cleared[i] == UnmarkedSock(socks[i])
    ensures MarkedFor(socks, cleared, [], available)
  {
    forall a ensures IsMarked(Get(socks, a), Get(cleared, a), false, {}) {
      hide Names, Marked, Unmarked;
      GetUnmarked(socks, cleared, a);
      if Get(socks, a).Some? {
        UnmarkedNames(Get(socks, a).value.groups);
      }
    }
  }

  /** Where the whole sweep takes the entry of an address. */
  predicate IsReconciled(marked: Option<Sock>, after: Option<Sock>) {
    && (after.Some? <==> marked.Some? && marked.value.ref)
    && (after.Some? ==> after.value.fd == marked.value.fd && Names(after.value.groups) == Marked(marked.value.groups))
  }

  /** A closing or leaving that the marks call for. */
  predicate Unreferenced(op: Op, marked: seq<Sock>) {
    match op
    case Closed(a) => Get(marked, a).Some? && !Get(marked, a).value.ref
    case Left(a, g) =>
      && Get(marked, a).Some? && Get(marked, a).value.ref
      && g in Names(Get(marked, a).value.groups) && g !in Marked(Get(marked, a).value.groups)
    case _ => false
  }

  predicate AllUnreferenced(ops: seq<Op>, marked: seq<Sock>) {
    forall i :: 0 <= i < |ops| ==> Unreferenced(ops[i], marked)
  }

  /** The open sockets are exactly the targets, survivors keep their descriptor, groups are as wanted. */
  ghost predicate Reconciled(before: seq<Sock>, after: seq<Sock>, lines: seq<Line>, available: set<Bytes>) {
    forall a ::
      && (Get(after, a).Some? <==> a in Targets(lines, available))
      && (Get(after, a).Some? ==> Names(Get(after, a).value.groups) == Wanted(lines, available, a))
      && (Get(after, a).Some? && Get(before, a).Some? ==> Get(after, a).value.fd == Get(before, a).value.fd)
  }

  lemma SweepReconciles(before: seq<Sock>, marked: seq<Sock>, after: seq<Sock>, lines: seq<Line>, available: set<Bytes>)
    requires MarkedFor(before, marked, lines, available)
    requires forall a :: IsReconciled(Get(marked, a), Get(after, a))
    ensures Reconciled(before, after, lines, available)
  {
    hide Names, Marked, Get, Targets, Wanted;
    forall a ensures IsReconciled(Get(marked, a), Get(after, a))
                     && IsMarked(Get(before, a), Get(marked, a), a in Targets(lines, available), Wanted(lines, available, a)) {
    }
  }

  lemma SweepingIsJustified(op: Op, before: seq<Sock>, marked: seq<Sock>, lines: seq<Line>, available: set<Bytes>)
    requires MarkedFor(before, marked, lines, available) && Unreferenced(op, marked)
    ensures Justified(op, before, lines, available)
  {
    hide Names, Marked, Get, Targets, Wanted;
    assert IsMarked(Get(before, op.addr), Get(marked, op.addr), op.addr in Targets(lines, available), Wanted(lines, available, op.addr));
  }

  /** Nothing is called for when the sockets match already. */
  lemma NothingLeftToDo(ops: seq<Op>, before: seq<Sock>, lines: seq<Line>, available: set<Bytes>)
    requires Reconciled(before, before, lines, available) && AllJustified(ops, before, lines, available)
    ensures ops == []
  {
    hide Names, Get, Targets, Wanted;
    if ops != [] {
      var a := ops[0].addr;
      assert Justified(ops[0], before, lines, available);
      assert Get(before, a).Some? <==> a in Targets(lines, available);
      if a !in Targets(lines, available) {
        WantedAtTargets(lines, available, a);
      }
    }
  }

  /** Reading the configuration against the sockets it led to asks for the same, unless more can be bound. */
  lemma TargetsAreStable(lines: seq<Line>, available: set<Bytes>, again: set<Bytes>, line: Line)
    requires line in lines && again <= available
    ensures Target(line.addr, Targets(lines, available) + again) == Target(line.addr, available)
  {
    var i :| 0 <= i < |lines| && lines[i] == line;
    assert Target(line.addr, available).Some? ==> Target(line.addr, available).value in Targets(lines, available);
    assert Targets(lines, available) <= available;
    hide Targets;
  }

  lemma {:induction false} WantedIsStable(lines: seq<Line>, available: set<Bytes>, again: set<Bytes>, a: Bytes)
    requires forall line :: line in lines ==> Target(line.addr, again) == Target(line.addr, available)
    ensures Wanted(lines, again, a) == Wanted(lines, available, a)
  {
    if lines != [] {
      WantedIsStable(lines[..|lines| - 1], available, again, a);
    }
  }

  /** After an update the sockets match, and the same configuration then calls for no further step. */
  lemma StaysReconciled(before: seq<Sock>, after: seq<Sock>, lines: seq<Line>, available: set<Bytes>, again: set<Bytes>)
    requires Reconciled(before, after, lines, available) && Distinct(after)
    requires again <= available
    ensures Reconciled(after, after, lines, Addresses(after) + again)
  {
    forall a ensures a in Addresses(after) <==> a in Targets(lines, available) {
      hide Addresses, Targets;
      GetInAddresses(after, a);
    }
    assert Addresses(after) == Targets(lines, available);
    var now := Addresses(after) + again;
    forall line | line in lines ensures Target(line.addr, now) == Target(line.addr, available) {
      TargetsAreStable(lines, available, again, line);
    }
    assert Targets(lines, now) == Targets(lines, available);
    forall a ensures Wanted(lines, now, a) == Wanted(lines, available, a) {
      WantedIsStable(lines, available, now, a);
    }
    hide Targets, Wanted, Names, Get, Distinct, Addresses;
  }

  // ---------------------------------------------------------------- what is listened on

  /** A line is for this address: it says so, or it is for the wildcard, of which IPv6 is taken if it can be. */
  predicate IsFor(line: Line, a: Bytes, available: set<Bytes>) {
    && a in available
    && if line.addr == [] then a == ANY6 || (a == ANY4 && ANY6 !in available)
       else line.addr == a && (|a| == 4 || |a| == 16)
  }

  lemma TargetExactly(line: Line, a: Bytes, available: set<Bytes>)
    ensures Target(line.addr, available) == Some(a) <==> IsFor(line, a, available)
  {
    assert ANY6 != ANY4;
  }

  lemma {:induction false} WantedExactly(lines: seq<Line>, available: set<Bytes>, a: Bytes, g: Bytes)
    ensures g in Wanted(lines, available, a) <==>
              exists i :: 0 <= i < |lines| && IsFor(lines[i], a, available) && g in lines[i].groups && KnownLength(g)
  {
    hide Target, IsFor, KnownLength;
    if lines != [] {
      var n := |lines| - 1;
      WantedExactly(lines[..n], available, a, g);
      TargetExactly(lines[n], a, available);
    }
  }

  /**
   After an update there is a socket at an address exactly when a line is for it and it was open or could be
   bound, and that socket is in exactly the groups of those lines.
   */
  lemma ListensExactly(before: seq<Sock>, after: seq<Sock>, lines: seq<Line>, available: set<Bytes>, a: Bytes, g: Bytes)
    requires Reconciled(before, after, lines, available)
    ensures Get(after, a).Some? <==> exists i :: 0 <= i < |lines| && IsFor(lines[i], a, available)
    ensures Get(after, a).Some? ==>
              (g in Names(Get(after, a).value.groups) <==>
                 exists i :: 0 <= i < |lines| && IsFor(lines[i], a, available) && g in lines[i].groups && KnownLength(g))
  {
    hide Target, IsFor, Get, Names, Wanted, KnownLength;
    forall i | 0 <= i < |lines| ensures Target(lines[i].addr, available) == Some(a) <==> IsFor(lines[i], a, available) {
      TargetExactly(lines[i], a, available);
    }
    WantedExactly(lines, available, a, g);
    assert Get(after, a).Some? <==> a in Targets(lines, available);
  }

  /** The lines are those of the LISTEN entries with hosts; with no LISTEN entry at all, the wildcard with the default groups. */
  lemma LinesExactly(entries: seq<ConfigEntry>, defaultGroups: seq<Bytes>, line: Line)
    ensures line in Lines(entries, defaultGroups) <==>
              if exists i :: 0 <= i < |entries| && entries[i].Listen? then Listen([line.addr] + line.groups) in entries
              else line == Line([], defaultGroups)
  {
    LinesOfExactly(entries, line);
    hide LinesOf;
  }

  lemma {:induction false} LinesOfExactly(entries: seq<ConfigEntry>, line: Line)
    ensures line in LinesOf(entries) <==> Listen([line.addr] + line.groups) in entries
  {
    if entries != [] {
      var n, e := |entries| - 1, Listen([line.addr] + line.groups);
      LinesOfExactly(entries[..n], line);
      assert e in entries <==> e in entries[..n] || e == entries[n];
      assert line in LineOf(entries[n]) <==> e == entries[n] by {
        var last := entries[n];
        assert last.Listen? && last.hosts != [] ==> last.hosts == [last.hosts[0]] + last.hosts[1..];
      }
    }
  }

  /** How far sweeping has come: the first `i` sockets are as they should be, the others as marked. */
  ghost predicate Sweeping(marked: seq<Sock>, socks: seq<Sock>, i: nat) {
    && i <= |socks| && Distinct(socks)
    && (forall a :: Get(socks, a) == None ==> IsReconciled(Get(marked, a), None))
    && (forall j :: 0 <= j < i ==> IsReconciled(Get(marked, socks[j].addr), Some(socks[j])))
    && (forall j :: i <= j < |socks| ==> Get(marked, socks[j].addr) == Some(socks[j]))
  }

  lemma StartSweeping(socks: seq<Sock>)
    requires Distinct(socks)
    ensures Sweeping(socks, socks, 0) && AllUnreferenced([], socks)
  {
    forall j | 0 <= j < |socks| ensures Get(socks, socks[j].addr) == Some(socks[j]) {
      GetAt(socks, j);
    }
  }

  lemma EndSweeping(marked: seq<Sock>, socks: seq<Sock>)
    requires Sweeping(marked, socks, |socks|)
    ensures forall a :: IsReconciled(Get(marked, a), Get(socks, a))
  {
    hide Distinct;
    forall a ensures IsReconciled(Get(marked, a), Get(socks, a)) {
      if Get(socks, a).Some? {
        var j :| 0 <= j < |socks| && socks[j] == Get(socks, a).value;
        assert IsReconciled(Get(marked, socks[j].addr), Some(socks[j]));
      }
    }
  }

  lemma CloseSwept(marked: seq<Sock>, socks: seq<Sock>, i: nat, ops: seq<Op>)
    requires Sweeping(marked, socks, i) && i < |socks| && !socks[i].ref && AllUnreferenced(ops, marked)
    ensures Sweeping(marked, socks[..i] + socks[i + 1..], i) && AllUnreferenced(ops + [Closed(socks[i].addr)], marked)
  {
    hide Get, Distinct, Names, Marked, IsReconciled, AllUnreferenced;
    var r := socks[..i] + socks[i + 1..];
    DistinctRemoved(socks, i);
    assert Get(marked, socks[i].addr) == Some(socks[i]);
    UnlistedIsReconciled(socks[i]);
    forall a ensures Get(r, a) == if a == socks[i].addr then None else Get(socks, a) {
      GetRemoved(socks, i, a);
    }
    assert forall j :: 0 <= j < |r| ==> r[j] == socks[if j < i then j else j + 1];
    OneMoreUnreferenced(ops, socks[i].addr, marked);
  }

  lemma UnlistedIsReconciled(s: Sock)
    requires !s.ref
    ensures IsReconciled(Some(s), None)
  {
  }

  lemma OneMoreUnreferenced(ops: seq<Op>, a: Bytes, marked: seq<Sock>)
    requires AllUnreferenced(ops, marked) && Get(marked, a).Some? && !Get(marked, a).value.ref
    ensures AllUnreferenced(ops + [Closed(a)], marked)
  {
    hide Get, Names, Marked;
  }

  lemma KeepSwept(marked: seq<Sock>, socks: seq<Sock>, i: nat, s: Sock, ops: seq<Op>, more: seq<Op>)
    requires Sweeping(marked, socks, i) && i < |socks| && socks[i].ref && AllUnreferenced(ops, marked)
    requires s == socks[i].(groups := s.groups) && DistinctGroups(s.groups)
    requires Names(s.groups) == Marked(socks[i].groups) && OnlyLeft(more, socks[i])
    ensures Sweeping(marked, socks[i := s], i + 1) && AllUnreferenced(ops + more, marked)
  {
    assert Distinct(socks[i := s]);
    forall a ensures Get(socks[i := s], a) == if a == s.addr then Some(s) else Get(socks, a) {
      GetUpdated(socks, i, s, a);
    }
    hide Get, Distinct, Names, Marked;
  }

  lemma ClearedAddresses(socks: seq<Sock>, cleared: seq<Sock>)
    requires |cleared| == |socks| && forall i :: 0 <= i < |socks| ==> cleared[i] == UnmarkedSock(socks[i])
    ensures Addresses(cleared) == Addresses(socks)
  {
    hide Unmarked;
    assert forall i :: 0 <= i < |socks| ==> cleared[i].addr == socks[i].addr;
  }

  lemma MarkingIsJustified(socks: seq<Sock>, log: seq<Op>, before: seq<Sock>, start: seq<Op>, lines: seq<Line>,
          available: set<Bytes>, bindable: set<Bytes>)
    requires Marking(socks, log, before, start, lines, available, bindable)
    ensures MarkedFor(before, socks, lines, available) && start <= log
    ensures AllJustified(log[|start|..], before, lines, available)
  {
    hide MarkedFor, Justified;
  }

  lemma BothJustified(ops: seq<Op>, more: seq<Op>, before: seq<Sock>, marked: seq<Sock>, lines: seq<Line>,
          available: set<Bytes>)
    requires MarkedFor(before, marked, lines, available)
    requires AllJustified(ops, before, lines, available) && AllUnreferenced(more, marked)
    ensures AllJustified(ops + more, before, lines, available)
  {
    forall i | 0 <= i < |more| ensures Justified(more[i], before, lines, available) {
      assert Unreferenced(more[i], marked);
      SweepingIsJustified(more[i], before, marked, lines, available);
    }
    hide MarkedFor, Justified, Unreferenced;
  }

  /** `listensocks` with `WellKnownSocketsMask`, which also holds the chooser's socket. */
  class ListenSockets {
    var listensocks: seq<Sock>
    var mask: set<nat>
    const chooser: set<nat>
    /** The kernel's view: which groups each open descriptor has joined, and what it was asked to do. */
    ghost var joined: map<nat, set<Bytes>>
    ghost var log: seq<Op>

    ghost predicate Valid()
      reads `listensocks, `mask, `joined
    {
      Consistent(listensocks, chooser, mask, joined) && KnownLengths(listensocks)
    }

    constructor (chooser: set<nat>)
      ensures Valid() && listensocks == [] && mask == chooser && log == []
    {
      this.chooser := chooser;
      listensocks := [];
      mask := chooser;
      joined := map[];
      log := [];
    }

    method FindInList(addr: Bytes) returns (i: nat)
      ensures i <= |listensocks|
      ensures i < |listensocks| ==> Get(listensocks, addr) == Some(listensocks[i])
      ensures i == |listensocks| ==> Get(listensocks, addr) == None
    {
      i := 0;
      while i < |listensocks| && listensocks[i].addr != addr
        invariant i <= |listensocks| && Get(listensocks, addr) == Get(listensocks[i..], addr)
      {
        assert listensocks[i..][1..] == listensocks[i + 1..];
        i := i + 1;
      }
    }

    method FindGroup(gs: seq<Group>, addr: Bytes) returns (i: nat)
      ensures i <= |gs|
      ensures i < |gs| ==> gs[i].addr == addr
      ensures i == |gs| ==> addr !in Names(gs)
    {
      i := 0;
      while i < |gs| && gs[i].addr != addr
        invariant i <= |gs| && forall j :: 0 <= j < i ==> gs[j].addr != addr
      {
        i := i + 1;
      }
    }

    /** socket and bind: a descriptor not in use, or failure. */
    method CreateListeningSocket(addr: Bytes, bindable: set<Bytes>) returns (fd: Option<nat>)
      modifies `mask, `joined, `log
      ensures fd.Some? <==> addr in bindable
      ensures fd == None ==> mask == old(mask) && joined == old(joined) && log == old(log)
      ensures fd.Some? ==>
                && fd.value !in old(mask) && mask == old(mask) + {fd.value}
                && joined == old(joined)[fd.value := {}] && log == old(log) + [Opened(addr)]
    {
      if addr !in bindable {
        return None;
      }
      FreshDescriptor(mask);
      var f: nat :| f !in mask;
      mask := mask + {f};
      joined := joined[f := {}];
      log := log + [Opened(addr)];
      return Some(f);
    }

    method MarkListener(i: nat)
      requires Valid() && i < |listensocks|
      modifies `listensocks
      ensures Valid() && |listensocks| == old(|listensocks|) && listensocks[i].addr == old(listensocks)[i].addr
      ensures TouchedAt(old(listensocks), listensocks, Some(listensocks[i].addr))
    {
      var s := listensocks[i].(ref := true);
      assert DistinctGroups(s.groups);
      hide Distinct, Descriptors, Names, DistinctGroups, Get;
      ConsistentUpdated(listensocks, i, s, chooser, mask, joined);
      GetAt(listensocks, i);
      forall a ensures Get(listensocks[i := s], a) == if a == s.addr then Some(s) else Get(listensocks, a) {
        GetUpdated(listensocks, i, s, a);
      }
      assert joined[s.fd := Names(s.groups)] == joined;
      listensocks := listensocks[i := s];
    }

    method OpenListener(addr: Bytes, bindable: set<Bytes>) returns (isOpen: bool)
      requires Valid() && Get(listensocks, addr) == None && KnownLength(addr)
      modifies this
      ensures Valid() && isOpen == (addr in bindable)
      ensures !isOpen ==> unchanged(this)
      ensures isOpen ==> |listensocks| > 0 && listensocks[0].addr == addr && log == old(log) + [Opened(addr)]
      ensures isOpen ==> TouchedAt(old(listensocks), listensocks, Some(addr))
    {
      hide Consistent;
      var fd := CreateListeningSocket(addr, bindable);
      if fd == None {
        return false;
      }
      var s := Sock(addr, fd.value, [], true);
      ConsistentOpened(listensocks, s, chooser, old(mask), old(joined));
      assert ([s] + listensocks)[1..] == listensocks;
      listensocks := [s] + listensocks;
      return true;
    }

    /** Marks the socket of an address, opening it if need be; the result points at it. */
    method UpdateListener(addr: Bytes, bindable: set<Bytes>) returns (closure: Option<nat>)
      requires Valid()
      modifies this
      ensures Valid()
      ensures var t := Target(addr, old(Addresses(listensocks)) + bindable);
              && (if closure == None then t == None && unchanged(this)
                  else closure.value < |listensocks| && t == Some(listensocks[closure.value].addr))
              && (t.Some? ==> TouchedAt(old(listensocks), listensocks, t))
              && log == old(log) + (if t.Some? && Get(old(listensocks), t.value) == None then [Opened(t.value)] else [])
      decreases addr == []
    {
      assert Distinct(listensocks);
      hide Valid, TouchedAt, Addresses, Get, Distinct;
      GetInAddresses(listensocks, addr);
      if addr == [] {
        closure := UpdateListener(ANY6, bindable);
        if closure.Some? {
          return;
        }
        closure := UpdateListener(ANY4, bindable);
        return;
      }
      var i := FindInList(addr);
      if i < |listensocks| {
        MarkListener(i);
        return Some(i);
      }
      if !KnownLength(addr) {
        return None;
      }
      var isOpen := OpenListener(addr, bindable);
      return if isOpen then Some(0) else None;
    }

    lemma GroupFacts(i: nat)
      requires Valid() && i < |listensocks|
      ensures DistinctGroups(listensocks[i].groups)
      ensures forall g :: g in Names(listensocks[i].groups) ==> KnownLength(g)
    {
    }

    lemma GroupIsNamed(gs: seq<Group>, k: nat)
      requires k < |gs|
      ensures gs[k].addr in Names(gs)
    {
    }

    /** Marks a group of the socket the closure points at, joining it if need be. */
    method UpdateMcastGroup(g: Bytes, closure: Option<nat>)
      requires Valid() && (closure.Some? ==> closure.value < |listensocks|)
      modifies this
      ensures Valid() && |listensocks| == old(|listensocks|)
      ensures closure == None || !KnownLength(g) ==> unchanged(this)
      ensures closure.Some? && KnownLength(g) ==>
                var s := old(listensocks)[closure.value];
                && listensocks[closure.value].addr == s.addr
                && GroupedAt(old(listensocks), listensocks, Some(s.addr), g)
                && log == old(log) + (if g in Names(s.groups) then [] else [Joined(s.addr, g)])
    {
      hide Valid, GroupedAt, DistinctGroups, Names, Marked;
      if closure == None {
        return;
      }
      GroupFacts(closure.value);
      var s := listensocks[closure.value];
      var k := FindGroup(s.groups, g);
      if k < |s.groups| {
        MarkGroup(s.groups, k);
        GroupIsNamed(s.groups, k);
        SetGroups(closure.value, s.groups[k := s.groups[k].(ref := true)], g);
        return;
      }
      if !KnownLength(g) {
        return;
      }
      JoinGroup(s.groups, g);
      SetGroups(closure.value, [Group(g, true)] + s.groups, g);
      log := log + [Joined(s.addr, g)];
    }

    method SetGroups(i: nat, gs: seq<Group>, g: Bytes)
      requires Valid() && i < |listensocks| && DistinctGroups(gs) && KnownLength(g)
      requires Names(gs) == Names(listensocks[i].groups) + {g} && Marked(gs) == Marked(listensocks[i].groups) + {g}
      modifies `listensocks, `joined
      ensures Valid() && |listensocks| == old(|listensocks|) && listensocks[i].addr == old(listensocks)[i].addr
      ensures GroupedAt(old(listensocks), listensocks, Some(listensocks[i].addr), g)
    {
      hide Consistent, KnownLengths, Names, Marked, GroupedAt, DistinctGroups, KnownLength;
      var s := listensocks[i].(groups := gs);
      GroupsSet(listensocks, i, s, g, chooser, mask, joined);
      joined := joined[s.fd := Names(gs)];
      listensocks := listensocks[i := s];
    }

    /** The first callback of a LISTEN entry. */
    method StartLine(addr: Bytes, bindable: set<Bytes>, ghost before: seq<Sock>, ghost start: seq<Op>,
            ghost done: seq<Line>, ghost available: set<Bytes>)
        returns (closure: Option<nat>)
      requires Valid() && Marking(listensocks, log, before, start, done, available, bindable)
      modifies this
      ensures Valid() && Marking(listensocks, log, before, start, done + [Line(addr, [])], available, bindable)
      ensures Points(closure, listensocks, Target(addr, available))
    {
      ghost var mid, asked := listensocks, log;
      assert Distinct(listensocks) && available == Addresses(listensocks) + bindable;
      closure := UpdateListener(addr, bindable);
      assert Distinct(listensocks);
      hide *;
      ListenerMarks(mid, asked, listensocks, log, before, start, done, addr, available, bindable);
    }

    /** A further callback of a LISTEN entry. */
    method AddGroup(g: Bytes, closure: Option<nat>, bindable: set<Bytes>, ghost before: seq<Sock>,
            ghost start: seq<Op>, ghost done: seq<Line>,
                    ghost line: Line, ghost available: set<Bytes>)
      requires Valid() && Marking(listensocks, log, before, start, done + [line], available, bindable)
      requires Points(closure, listensocks, Target(line.addr, available))
      modifies this
      ensures Valid()
      ensures Marking(listensocks, log, before, start, done + [line.(groups := line.groups + [g])], available, bindable)
      ensures Points(closure, listensocks, Target(line.addr, available))
    {
      ghost var mid, asked := listensocks, log;
      if closure.Some? {
        GetAt(listensocks, closure.value);
      }
      assert Distinct(listensocks);
      UpdateMcastGroup(g, closure);
      assert Distinct(listensocks);
      hide Valid, KnownLength, TouchedAt, Addresses, Target, Targets, Wanted, Get, Names, Justified, MarkOps,
        GroupedAt, MarkedFor, Distinct;
      GroupMarks(mid, asked, listensocks, log, before, start, done, line, g, available, bindable);
    }

    /** The callbacks of one LISTEN entry. */
    method MarkLine(line: Line, bindable: set<Bytes>, ghost before: seq<Sock>, ghost start: seq<Op>,
            ghost done: seq<Line>, ghost available: set<Bytes>)
      requires Valid() && Marking(listensocks, log, before, start, done, available, bindable)
      modifies this
      ensures Valid() && Marking(listensocks, log, before, start, done + [line], available, bindable)
    {
      hide *;
      var closure := StartLine(line.addr, bindable, before, start, done, available);
      for k := 0 to |line.groups|
        invariant Valid()
        invariant Marking(listensocks, log, before, start, done + [Line(line.addr, line.groups[..k])], available, bindable)
        invariant Points(closure, listensocks, Target(line.addr, available))
      {
        AddGroup(line.groups[k], closure, bindable, before, start, done, Line(line.addr, line.groups[..k]), available);
        assert line.groups[..k + 1] == line.groups[..k] + [line.groups[k]];
      }
      assert line.groups[..|line.groups|] == line.groups;
    }

    /**
     All callbacks, after which exactly what the configuration asks for is marked: the hosts of each
     LISTEN entry, or the wildcard and the default groups when there is no such entry.
     */
    method ForEachListenAddr(entries: seq<ConfigEntry>, defaultGroups: seq<Bytes>, bindable: set<Bytes>,
            ghost before: seq<Sock>, ghost available: set<Bytes>)
      requires Valid() && MarkedFor(before, listensocks, [], available)
      requires available == Addresses(listensocks) + bindable
      modifies this
      ensures Valid()
      ensures Marking(listensocks, log, before, old(log), Lines(entries, defaultGroups), available, bindable)
    {
      hide Valid, Marking, MarkedFor, MarkOps, Addresses, ListenFound, LinesOf;
      ghost var start := log;
      MarkingStarts(before, available, bindable);
      NothingRead(entries);
      var listenFound := false;
      for i := 0 to |entries|
        invariant Valid() && Marking(listensocks, log, before, start, LinesOf(entries[..i]), available, bindable)
        invariant listenFound == ListenFound(entries[..i])
      {
        OneMoreEntry(entries, i);
        if entries[i].Listen? {
          listenFound := true;
          var hosts := entries[i].hosts;
          if hosts != [] {
            MarkLine(Line(hosts[0], hosts[1..]), bindable, before, start, LinesOf(entries[..i]), available);
          }
        }
      }
      assert entries[..|entries|] == entries;
      if !listenFound {
        NothingConfigured(entries);
        assert [] + [Line([], defaultGroups)] == [Line([], defaultGroups)];
        MarkLine(Line([], defaultGroups), bindable, before, start, [], available);
      }
    }

    lemma MarkingStarts(before: seq<Sock>, available: set<Bytes>, bindable: set<Bytes>)
      requires MarkedFor(before, listensocks, [], available) && available == Addresses(listensocks) + bindable
      ensures Marking(listensocks, log, before, log, [], available, bindable)
    {
      assert log[|log|..] == [];
    }

    lemma NothingRead(entries: seq<ConfigEntry>)
      ensures LinesOf(entries[..0]) == [] && !ListenFound(entries[..0])
    {
    }

    lemma OneMoreEntry(entries: seq<ConfigEntry>, i: nat)
      requires i < |entries|
      ensures LinesOf(entries[..i + 1]) == LinesOf(entries[..i]) + LineOf(entries[i])
      ensures LineOf(entries[i]) == [] ==> LinesOf(entries[..i + 1]) == LinesOf(entries[..i])
      ensures ListenFound(entries[..i + 1]) == (ListenFound(entries[..i]) || entries[i].Listen?)
    {
      var before, after := entries[..i], entries[..i + 1];
      assert after[..i] == before && after[i] == entries[i];
      assert LinesOf(before) + [] == LinesOf(before);
      if k :| 0 <= k < |before| && before[k].Listen? {
        assert after[k].Listen?;
      }
      if k :| 0 <= k < |after| && after[k].Listen? {
        assert k < i ==> before[k].Listen?;
      }
    }

    lemma {:induction false} NothingConfigured(entries: seq<ConfigEntry>)
      requires !ListenFound(entries)
      ensures LinesOf(entries) == []
    {
      if entries != [] {
        assert !entries[|entries| - 1].Listen?;
        NothingConfigured(entries[..|entries| - 1]);
      }
    }

    method ClearGroups(gs: seq<Group>) returns (r: seq<Group>)
      ensures r == Unmarked(gs)
    {
      r := gs;
      for k := 0 to |gs|
        invariant |r| == |gs|
        invariant forall j :: 0 <= j < |gs| ==> r[j] == if j < k then gs[j].(ref := false) else gs[j]
      {
        r := r[k := r[k].(ref := false)];
      }
    }

    method ClearMark(i: nat)
      requires Valid() && i < |listensocks|
      modifies `listensocks
      ensures Valid() && listensocks == old(listensocks)[i := UnmarkedSock(old(listensocks)[i])]
    {
      var gs := ClearGroups(listensocks[i].groups);
      UnmarkedNames(listensocks[i].groups);
      var s := listensocks[i].(ref := false, groups := gs);
      assert DistinctGroups(gs);
      hide Distinct, Descriptors, Names, DistinctGroups;
      ConsistentUpdated(listensocks, i, s, chooser, mask, joined);
      assert joined[s.fd := Names(gs)] == joined;
      listensocks := listensocks[i := s];
    }

    method ClearMarks()
      requires Valid()
      modifies `listensocks
      ensures Valid() && |listensocks| == old(|listensocks|)
      ensures forall i :: 0 <= i < |listensocks| ==> listensocks[i] == UnmarkedSock(old(listensocks)[i])
    {
      hide Valid, UnmarkedSock;
      for i := 0 to |listensocks|
        invariant Valid() && |listensocks| == old(|listensocks|)
        invariant forall j :: 0 <= j < |listensocks| ==>
                    listensocks[j] == if j < i then UnmarkedSock(old(listensocks)[j]) else old(listensocks)[j]
      {
        ClearMark(i);
      }
    }

    /** DestroyListeningSocket and the unlinking around it. */
    method CloseListener(i: nat)
      requires Valid() && i < |listensocks|
      modifies this
      ensures Valid() && listensocks == old(listensocks[..i] + listensocks[i + 1..])
      ensures log == old(log) + [Closed(old(listensocks)[i].addr)]
    {
      ConsistentRemoved(listensocks, i, chooser, mask, joined);
      hide Consistent;
      mask := mask - {listensocks[i].fd};
      joined := joined - {listensocks[i].fd};
      log := log + [Closed(listensocks[i].addr)];
      ghost var before := listensocks;
      listensocks := listensocks[..i] + listensocks[i + 1..];
      assert forall j :: 0 <= j < |listensocks| ==> listensocks[j] == before[if j < i then j else j + 1];
    }

    method LeaveGroup(i: nat, k: nat)
      requires Valid() && i < |listensocks| && k < |listensocks[i].groups| && !listensocks[i].groups[k].ref
      modifies this
      ensures Valid()
      ensures var s := old(listensocks[i]);
              && listensocks == old(listensocks)[i := s.(groups := s.groups[..k] + s.groups[k + 1..])]
              && log == old(log) + [Left(s.addr, s.groups[k].addr)]
    {
      var s := listensocks[i];
      DropGroup(s.groups, k);
      var r := s.(groups := s.groups[..k] + s.groups[k + 1..]);
      assert DistinctGroups(r.groups);
      hide Distinct, Descriptors, Names, DistinctGroups, Marked;
      ConsistentUpdated(listensocks, i, r, chooser, mask, joined);
      joined := joined[s.fd := joined[s.fd] - {s.groups[k].addr}];
      log := log + [Left(s.addr, s.groups[k].addr)];
      listensocks := listensocks[i := r];
    }

    lemma StartSweep(i: nat)
      requires Valid() && i < |listensocks|
      ensures SweptGroups(listensocks[i], listensocks[i].groups) && OnlyLeft([], listensocks[i])
    {
      hide Names, Marked, DistinctGroups;
    }

    /** Leaves the groups of a surviving socket that are not marked. */
    method SweepGroups(i: nat)
      requires Valid() && i < |listensocks|
      modifies this
      ensures Valid() && |listensocks| == old(|listensocks|)
      ensures var s := old(listensocks[i]);
              && listensocks == old(listensocks)[i := s.(groups := listensocks[i].groups)]
              && Names(listensocks[i].groups) == Marked(s.groups) && DistinctGroups(listensocks[i].groups)
              && old(log) <= log && OnlyLeft(log[|old(log)|..], s)
    {
      hide *;
      ghost var s := listensocks[i];
      StartSweep(i);
      assert log[|log|..] == [];
      var k := 0;
      while k < |listensocks[i].groups|
        invariant Valid() && |listensocks| == old(|listensocks|)
        invariant k <= |listensocks[i].groups|
        invariant listensocks == old(listensocks)[i := s.(groups := listensocks[i].groups)]
        invariant forall j :: 0 <= j < k ==> listensocks[i].groups[j].ref
        invariant SweptGroups(s, listensocks[i].groups)
        invariant old(log) <= log && OnlyLeft(log[|old(log)|..], s)
        decreases |listensocks[i].groups| - k
      {
        if !listensocks[i].groups[k].ref {
          ghost var gs, asked := listensocks[i].groups, log;
          LeaveGroup(i, k);
          DropSwept(s, gs, k, asked[|old(log)|..]);
          assert log[|old(log)|..] == asked[|old(log)|..] + [Left(s.addr, gs[k].addr)];
        } else {
          k := k + 1;
        }
      }
      EndSweep(s, listensocks[i].groups);
    }

    lemma ListIsDistinct()
      requires Valid()
      ensures Distinct(listensocks)
    {
    }

    /** Closes what is not marked, socket by socket and group by group. */
    method Sweep()
      requires Valid()
      modifies this
      ensures Valid()
      ensures forall a :: IsReconciled(Get(old(listensocks), a), Get(listensocks, a))
      ensures old(log) <= log && AllUnreferenced(log[|old(log)|..], old(listensocks))
    {
      hide *;
      ghost var marked := listensocks;
      assert log[|log|..] == [];
      ListIsDistinct();
      StartSweeping(listensocks);
      var i := 0;
      while i < |listensocks|
        invariant Valid() && i <= |listensocks|
        invariant Sweeping(marked, listensocks, i)
        invariant old(log) <= log && AllUnreferenced(log[|old(log)|..], marked)
        decreases |listensocks| - i
      {
        ghost var mid, asked := listensocks, log;
        if !listensocks[i].ref {
          CloseListener(i);
          CloseSwept(marked, mid, i, asked[|old(log)|..]);
          assert log[|old(log)|..] == asked[|old(log)|..] + log[|asked|..];
        } else {
          SweepGroups(i);
          KeepSwept(marked, mid, i, listensocks[i], asked[|old(log)|..], log[|asked|..]);
          assert log[|old(log)|..] == asked[|old(log)|..] + log[|asked|..];
          i := i + 1;
        }
      }
      EndSweeping(marked, listensocks);
    }

    /** Opens and closes sockets, joins and leaves groups, so that they match the access file. */
    method UpdateListenSockets(entries: seq<ConfigEntry>, defaultGroups: seq<Bytes>, bindable: set<Bytes>)
      requires Valid()
      modifies this
      ensures Valid()
      ensures var lines, available := Lines(entries, defaultGroups), old(Addresses(listensocks)) + bindable;
              && Reconciled(old(listensocks), listensocks, lines, available)
              && old(log) <= log && AllJustified(log[|old(log)|..], old(listensocks), lines, available)
              && (Reconciled(old(listensocks), old(listensocks), lines, available) ==> log == old(log))
    {
      hide *;
      ghost var before, start, available := listensocks, log, Addresses(listensocks) + bindable;
      ghost var lines := Lines(entries, defaultGroups);
      ClearMarks();
      ClearedIsMarked(before, listensocks, available);
      ClearedAddresses(before, listensocks);
      ForEachListenAddr(entries, defaultGroups, bindable, before, available);
      ghost var marked, asked := listensocks, log;
      MarkingIsJustified(marked, asked, before, start, lines, available, bindable);
      Sweep();
      SweepReconciles(before, marked, listensocks, lines, available);
      BothJustified(asked[|start|..], log[|asked|..], before, marked, lines, available);
      assert log[|start|..] == asked[|start|..] + log[|asked|..];
      if Reconciled(before, before, lines, available) {
        NothingLeftToDo(log[|start|..], before, lines, available);
      }
    }

    method CloseListenSockets()
      requires Valid()
      modifies this
      ensures Valid() && listensocks == [] && mask == chooser
    {
      while listensocks != []
        invariant Valid()
        decreases |listensocks|
      {
        CloseListener(0);
      }
    }
  }
}
