/**
 The Xaccess database and the questions asked of it (xdm/access.c): host lists with macros
 expanded through a possibly cyclic graph, and the first-match rules.
 */
module AccessRules {
  import opened Options
  import opened Network
  import opened Globbing

  datatype HostEntry = HostAlias(name: string) | HostAddress(address: Bytes) | HostBroadcast

  datatype EntryKind =
    | DisplayAlias(name: string)
    | DisplayPattern(pattern: string)
    | DisplayAddress(client: Client)
    | DisplayListen

  datatype DisplayEntry = DisplayEntry(
    kind: EntryKind, notAllowed: bool, notBroadcast: bool, chooser: bool, hosts: seq<HostEntry>)

  type Database = seq<DisplayEntry>

  const MAX_DEPTH: nat := 32

  /** One call of the function given to the walk. */
  datatype Called = CalledAddress(address: Bytes) | CalledBroadcast

  /** A finished walk: is the local host on any list, and which calls were made, in order. */
  datatype Walk = Walk(local: bool, calls: seq<Called>)

  function Then(a: Walk, b: Walk): Walk {
    Walk(a.local || b.local, a.calls + b.calls)
  }

  const NOTHING := Walk(false, [])

  lemma ThenIsAssociative(a: Walk, b: Walk, c: Walk)
    ensures Then(Then(a, b), c) == Then(a, Then(b, c))
  {
    assert (a.calls + b.calls) + c.calls == a.calls + (b.calls + c.calls);
  }

  /** What a walk needs and never changes. `isLocal` is `isLocalAddress` for the client's type. */
  datatype Setting = Setting(db: Database, isLocal: Bytes -> bool, broadcast: bool)

  predicate Expands(e: DisplayEntry, name: string) {
    e.kind.DisplayAlias? && Scan(name, e.kind.name) == Match
  }

  /** Matching the macro word against the entry's name reads past the end of that name. */
  predicate PassesName(e: DisplayEntry, name: string) {
    e.kind.DisplayAlias? && Scan(name, e.kind.name) == Overrun
  }

  // ---------------------------------------------------------------- the walk

  function WalkHosts(w: Setting, hosts: seq<HostEntry>, depth: nat): Walk
    requires depth <= MAX_DEPTH
    decreases MAX_DEPTH - depth, 1, |hosts|
  {
    if hosts == [] then NOTHING
    else Then(WalkHost(w, hosts[0], depth), WalkHosts(w, hosts[1..], depth))
  }

  function WalkHost(w: Setting, h: HostEntry, depth: nat): Walk
    requires depth <= MAX_DEPTH
    decreases MAX_DEPTH - depth, 1, 0
  {
    match h
    case HostAlias(name) => WalkAlias(w, 0, name, depth)
    case HostAddress(a) => if w.isLocal(a) then Walk(true, []) else Walk(false, [CalledAddress(a)])
    case HostBroadcast => Walk(false, if w.broadcast then [CalledBroadcast] else [])
  }

  /** The macro entries from position `k` of the database on. */
  function WalkAlias(w: Setting, k: nat, name: string, depth: nat): Walk
    requires k <= |w.db| && depth <= MAX_DEPTH
    decreases MAX_DEPTH - depth, 0, |w.db| - k
  {
    if depth == MAX_DEPTH || k == |w.db| then NOTHING
    else
      var here := if Expands(w.db[k], name) then WalkHosts(w, w.db[k].hosts, depth + 1) else NOTHING;
      Then(here, WalkAlias(w, k + 1, name, depth))
  }

  /** The walk reads past the end of a macro entry's name somewhere. */
  predicate HostsOverrun(db: Database, hosts: seq<HostEntry>, depth: nat)
    requires depth <= MAX_DEPTH
    decreases MAX_DEPTH - depth, 1, |hosts|
  {
    hosts != [] &&
    ((hosts[0].HostAlias? && AliasOverruns(db, 0, hosts[0].name, depth)) || HostsOverrun(db, hosts[1..], depth))
  }

  predicate AliasOverruns(db: Database, k: nat, name: string, depth: nat)
    requires k <= |db| && depth <= MAX_DEPTH
    decreases MAX_DEPTH - depth, 0, |db| - k
  {
    depth < MAX_DEPTH && k < |db| &&
    (PassesName(db[k], name) || (Expands(db[k], name) && HostsOverrun(db, db[k].hosts, depth + 1))
     || AliasOverruns(db, k + 1, name, depth))
  }

  /** Nothing is promised of the walk once it has read past a name. */
  method ScanHostlist(w: Setting, hosts: seq<HostEntry>, depth: nat) returns (r: Walk, overrun: bool)
    requires depth <= MAX_DEPTH
    ensures overrun == HostsOverrun(w.db, hosts, depth) && (!overrun ==> r == WalkHosts(w, hosts, depth))
    decreases MAX_DEPTH - depth, 1
  {
    r, overrun := NOTHING, false;
    for i := 0 to |hosts|
      invariant !overrun && HostsOverrun(w.db, hosts, depth) == HostsOverrun(w.db, hosts[i..], depth)
      invariant WalkHosts(w, hosts, depth) == Then(r, WalkHosts(w, hosts[i..], depth))
    {
      var h := hosts[i];
      var one := NOTHING;
      assert hosts[i..][1..] == hosts[i + 1..];
      match h {
        case HostAlias(name) =>
          one, overrun := IndirectAlias(w, name, depth);
          if overrun {
            return;
          }
        case HostAddress(a) =>
          if w.isLocal(a) {
            one := Walk(true, []);
          } else {
            one := Walk(false, [CalledAddress(a)]);
          }
        case HostBroadcast =>
          if w.broadcast {
            one := Walk(false, [CalledBroadcast]);
          }
      }
      assert one == WalkHost(w, h, depth);
      ThenIsAssociative(r, one, WalkHosts(w, hosts[i + 1..], depth));
      r := Then(r, one);
    }
  }

  method IndirectAlias(w: Setting, alias: string, depth: nat) returns (r: Walk, overrun: bool)
    requires depth <= MAX_DEPTH
    ensures overrun == AliasOverruns(w.db, 0, alias, depth) && (!overrun ==> r == WalkAlias(w, 0, alias, depth))
    decreases MAX_DEPTH - depth, 0
  {
    r, overrun := NOTHING, false;
    if depth == MAX_DEPTH {
      return;
    }
    for k := 0 to |w.db|
      invariant !overrun && AliasOverruns(w.db, 0, alias, depth) == AliasOverruns(w.db, k, alias, depth)
      invariant WalkAlias(w, 0, alias, depth) == Then(r, WalkAlias(w, k, alias, depth))
    {
      var d := w.db[k];
      var one := NOTHING;
      if d.kind.DisplayAlias? {
        var v := PatternMatch(alias, d.kind.name);
        if v == Overrun {
          overrun := true;
          return;
        }
        if v == Match {
          one, overrun := ScanHostlist(w, d.hosts, depth + 1);
          if overrun {
            return;
          }
        }
      }
      ThenIsAssociative(r, one, WalkAlias(w, k + 1, alias, depth));
      r := Then(r, one);
    }
  }

  // ------------------------------------------------------- reachability in the macro graph

  /** What a walk can produce: a report of the local host, or one call. */
  datatype Outcome = LocalHost | Call(called: Called)

  predicate Produces(r: Walk, o: Outcome) {
    match o
    case LocalHost => r.local
    case Call(c) => c in r.calls
  }

  predicate Yields(w: Setting, h: HostEntry, o: Outcome) {
    match h
    case HostAlias(_) => false
    case HostAddress(a) => o == if w.isLocal(a) then LocalHost else Call(CalledAddress(a))
    case HostBroadcast => w.broadcast && o == Call(CalledBroadcast)
  }

  predicate ListYields(w: Setting, hosts: seq<HostEntry>, o: Outcome) {
    exists j :: 0 <= j < |hosts| && Yields(w, hosts[j], o)
  }

  predicate Leads(db: Database, hosts: seq<HostEntry>, i: nat)
    requires i < |db|
  {
    exists j :: 0 <= j < |hosts| && hosts[j].HostAlias? && Expands(db[i], hosts[j].name)
  }

  /** A chain of macro entries, each expanding a macro named in the list before it. */
  predicate IsPath(db: Database, hosts: seq<HostEntry>, path: seq<nat>)
    decreases path
  {
    path == [] ||
    (path[0] < |db| && Leads(db, hosts, path[0]) && IsPath(db, db[path[0]].hosts, path[1..]))
  }

  function End(db: Database, hosts: seq<HostEntry>, path: seq<nat>): seq<HostEntry>
    requires IsPath(db, hosts, path)
    decreases path
  {
    if path == [] then hosts else End(db, db[path[0]].hosts, path[1..])
  }

  ghost predicate Reachable(w: Setting, hosts: seq<HostEntry>, o: Outcome) {
    exists path :: IsPath(w.db, hosts, path) && ListYields(w, End(w.db, hosts, path), o)
  }

  ghost predicate ReachableWithin(w: Setting, hosts: seq<HostEntry>, o: Outcome, n: nat) {
    exists path :: |path| <= n && IsPath(w.db, hosts, path) && ListYields(w, End(w.db, hosts, path), o)
  }

  lemma {:induction false} WalkHostsSound(w: Setting, hosts: seq<HostEntry>, depth: nat, o: Outcome)
      returns (path: seq<nat>)
    requires depth <= MAX_DEPTH && Produces(WalkHosts(w, hosts, depth), o)
    ensures |path| <= MAX_DEPTH - depth && IsPath(w.db, hosts, path)
    ensures ListYields(w, End(w.db, hosts, path), o)
    decreases MAX_DEPTH - depth, 1, |hosts|
  {
    var h := hosts[0];
    if Produces(WalkHost(w, h, depth), o) {
      if h.HostAlias? {
        path := WalkAliasSound(w, 0, h.name, depth, o);
        assert hosts[0].HostAlias? && Expands(w.db[path[0]], hosts[0].name);
      } else {
        path := [];
        assert Yields(w, hosts[0], o);
      }
    } else {
      path := WalkHostsSound(w, hosts[1..], depth, o);
      if path == [] {
        var j :| 0 <= j < |hosts[1..]| && Yields(w, hosts[1..][j], o);
        assert hosts[j + 1] == hosts[1..][j];
      } else {
        var j :| 0 <= j < |hosts[1..]| && hosts[1..][j].HostAlias? && Expands(w.db[path[0]], hosts[1..][j].name);
        assert hosts[j + 1] == hosts[1..][j];
      }
    }
  }

  lemma {:induction false} WalkAliasSound(w: Setting, k: nat, name: string, depth: nat, o: Outcome)
      returns (path: seq<nat>)
    requires k <= |w.db| && depth <= MAX_DEPTH && Produces(WalkAlias(w, k, name, depth), o)
    ensures path != [] && path[0] < |w.db| && Expands(w.db[path[0]], name)
    ensures |path| <= MAX_DEPTH - depth && IsPath(w.db, w.db[path[0]].hosts, path[1..])
    ensures ListYields(w, End(w.db, w.db[path[0]].hosts, path[1..]), o)
    decreases MAX_DEPTH - depth, 0, |w.db| - k
  {
    if Expands(w.db[k], name) && Produces(WalkHosts(w, w.db[k].hosts, depth + 1), o) {
      var rest := WalkHostsSound(w, w.db[k].hosts, depth + 1, o);
      path := [k] + rest;
      assert path[1..] == rest;
    } else {
      path := WalkAliasSound(w, k + 1, name, depth, o);
    }
  }

  lemma {:induction false} HostIsWalked(w: Setting, hosts: seq<HostEntry>, j: nat, depth: nat, o: Outcome)
    requires depth <= MAX_DEPTH && j < |hosts| && Produces(WalkHost(w, hosts[j], depth), o)
    ensures Produces(WalkHosts(w, hosts, depth), o)
  {
    if j > 0 {
      HostIsWalked(w, hosts[1..], j - 1, depth, o);
    }
  }

  lemma {:induction false} EntryIsWalked(w: Setting, k: nat, i: nat, name: string, depth: nat, o: Outcome)
    requires k <= i < |w.db| && depth < MAX_DEPTH && Expands(w.db[i], name)
    requires Produces(WalkHosts(w, w.db[i].hosts, depth + 1), o)
    ensures Produces(WalkAlias(w, k, name, depth), o)
    decreases i - k
  {
    if k < i {
      EntryIsWalked(w, k + 1, i, name, depth, o);
    }
  }

  lemma {:induction false} WalkComplete(w: Setting, hosts: seq<HostEntry>, depth: nat, path: seq<nat>, o: Outcome)
    requires depth <= MAX_DEPTH && |path| <= MAX_DEPTH - depth && IsPath(w.db, hosts, path)
    requires ListYields(w, End(w.db, hosts, path), o)
    ensures Produces(WalkHosts(w, hosts, depth), o)
    decreases |path|
  {
    if path == [] {
      var j :| 0 <= j < |hosts| && Yields(w, hosts[j], o);
      HostIsWalked(w, hosts, j, depth, o);
    } else {
      var i := path[0];
      var j :| 0 <= j < |hosts| && hosts[j].HostAlias? && Expands(w.db[i], hosts[j].name);
      WalkComplete(w, w.db[i].hosts, depth + 1, path[1..], o);
      EntryIsWalked(w, 0, i, hosts[j].name, depth, o);
      HostIsWalked(w, hosts, j, depth, o);
    }
  }

  /** For any database the walk finds exactly what chains of at most 32 macro entries reach. */
  lemma WalkIsBoundedReachability(w: Setting, hosts: seq<HostEntry>, o: Outcome)
    ensures Produces(WalkHosts(w, hosts, 0), o) <==> ReachableWithin(w, hosts, o, MAX_DEPTH)
  {
    if Produces(WalkHosts(w, hosts, 0), o) {
      var path := WalkHostsSound(w, hosts, 0, o);
    }
    if ReachableWithin(w, hosts, o, MAX_DEPTH) {
      var path :| |path| <= MAX_DEPTH && IsPath(w.db, hosts, path) && ListYields(w, End(w.db, hosts, path), o);
      WalkComplete(w, hosts, 0, path, o);
    }
  }

  // ------------------------------------------------------- walks that read past a name

  /** A macro word of the list is matched against a name it reads past. */
  predicate ListPasses(db: Database, hosts: seq<HostEntry>) {
    exists j, i :: 0 <= j < |hosts| && 0 <= i < |db| && hosts[j].HostAlias? && PassesName(db[i], hosts[j].name)
  }

  lemma {:induction false} HostsOverrunSound(db: Database, hosts: seq<HostEntry>, depth: nat) returns (path: seq<nat>)
    requires depth <= MAX_DEPTH && HostsOverrun(db, hosts, depth)
    ensures |path| < MAX_DEPTH - depth && IsPath(db, hosts, path) && ListPasses(db, End(db, hosts, path))
    decreases MAX_DEPTH - depth, 1, |hosts|
  {
    if hosts[0].HostAlias? && AliasOverruns(db, 0, hosts[0].name, depth) {
      path := AliasOverrunSound(db, hosts, 0, hosts[0].name, depth);
    } else {
      path := HostsOverrunSound(db, hosts[1..], depth);
      assert forall j :: 0 <= j < |hosts[1..]| ==> hosts[1..][j] == hosts[j + 1];
      if path == [] {
        var j, i :| 0 <= j < |hosts[1..]| && 0 <= i < |db| && hosts[1..][j].HostAlias? && PassesName(db[i], hosts[1..][j].name);
        assert hosts[j + 1].HostAlias? && PassesName(db[i], hosts[j + 1].name);
      } else {
        var j :| 0 <= j < |hosts[1..]| && hosts[1..][j].HostAlias? && Expands(db[path[0]], hosts[1..][j].name);
        assert hosts[j + 1] == hosts[1..][j];
      }
    }
  }

  lemma {:induction false} AliasOverrunSound(db: Database, hosts: seq<HostEntry>, k: nat, name: string, depth: nat)
      returns (path: seq<nat>)
    requires k <= |db| && depth <= MAX_DEPTH && AliasOverruns(db, k, name, depth)
    requires hosts != [] && hosts[0] == HostAlias(name)
    ensures |path| < MAX_DEPTH - depth && IsPath(db, hosts, path) && ListPasses(db, End(db, hosts, path))
    decreases MAX_DEPTH - depth, 0, |db| - k
  {
    if PassesName(db[k], name) {
      path := [];
      assert hosts[0].HostAlias? && PassesName(db[k], hosts[0].name);
    } else if Expands(db[k], name) && HostsOverrun(db, db[k].hosts, depth + 1) {
      var rest := HostsOverrunSound(db, db[k].hosts, depth + 1);
      path := [k] + rest;
      assert path[1..] == rest && hosts[0].HostAlias? && Expands(db[k], hosts[0].name);
    } else {
      path := AliasOverrunSound(db, hosts, k + 1, name, depth);
    }
  }

  lemma {:induction false} AliasIsWalked(db: Database, hosts: seq<HostEntry>, j: nat, depth: nat)
    requires depth <= MAX_DEPTH && j < |hosts| && hosts[j].HostAlias? && AliasOverruns(db, 0, hosts[j].name, depth)
    ensures HostsOverrun(db, hosts, depth)
  {
    if j > 0 {
      AliasIsWalked(db, hosts[1..], j - 1, depth);
    }
  }

  lemma {:induction false} NameIsTried(db: Database, k: nat, i: nat, name: string, depth: nat)
    requires k <= i < |db| && depth < MAX_DEPTH
    requires PassesName(db[i], name) || (Expands(db[i], name) && HostsOverrun(db, db[i].hosts, depth + 1))
    ensures AliasOverruns(db, k, name, depth)
    decreases i - k
  {
    if k < i {
      NameIsTried(db, k + 1, i, name, depth);
    }
  }

  lemma {:induction false} OverrunComplete(db: Database, hosts: seq<HostEntry>, depth: nat, path: seq<nat>)
    requires depth + |path| < MAX_DEPTH && IsPath(db, hosts, path) && ListPasses(db, End(db, hosts, path))
    ensures HostsOverrun(db, hosts, depth)
    decreases |path|
  {
    if path == [] {
      var j, i :| 0 <= j < |hosts| && 0 <= i < |db| && hosts[j].HostAlias? && PassesName(db[i], hosts[j].name);
      NameIsTried(db, 0, i, hosts[j].name, depth);
      AliasIsWalked(db, hosts, j, depth);
    } else {
      var i := path[0];
      var j :| 0 <= j < |hosts| && hosts[j].HostAlias? && Expands(db[i], hosts[j].name);
      OverrunComplete(db, db[i].hosts, depth + 1, path[1..]);
      NameIsTried(db, 0, i, hosts[j].name, depth);
      AliasIsWalked(db, hosts, j, depth);
    }
  }

  /** Fewer than 32 macros lead to a list with a macro word that is matched past the end of some entry's name. */
  ghost predicate MisreadWithin(db: Database, hosts: seq<HostEntry>, n: nat) {
    exists path :: |path| < n && IsPath(db, hosts, path) && ListPasses(db, End(db, hosts, path))
  }

  lemma WalkOverrunsExactly(db: Database, hosts: seq<HostEntry>)
    ensures HostsOverrun(db, hosts, 0) <==> MisreadWithin(db, hosts, MAX_DEPTH)
  {
    if HostsOverrun(db, hosts, 0) {
      var path := HostsOverrunSound(db, hosts, 0);
    }
    if path :| |path| < MAX_DEPTH && IsPath(db, hosts, path) && ListPasses(db, End(db, hosts, path)) {
      OverrunComplete(db, hosts, 0, path);
    }
  }

  // ------------------------------------------------------- the limit hides nothing

  function Macros(db: Database): set<nat> {
    set i: nat | i < |db| && db[i].kind.DisplayAlias?
  }

  predicate NoRepeats(path: seq<nat>) {
    forall i, j :: 0 <= i < j < |path| ==> path[i] != path[j]
  }

  lemma {:induction false} PathTail(db: Database, hosts: seq<HostEntry>, path: seq<nat>, k: nat)
    requires k < |path| && IsPath(db, hosts, path)
    ensures path[k] in Macros(db)
    ensures IsPath(db, db[path[k]].hosts, path[k + 1..])
    ensures End(db, hosts, path) == End(db, db[path[k]].hosts, path[k + 1..])
    decreases path
  {
    if k > 0 {
      PathTail(db, db[path[0]].hosts, path[1..], k - 1);
      assert path[1..][k..] == path[k + 1..];
    }
  }

  /** Replace what follows position k by any continuation from the same macro entry. */
  lemma {:induction false} Splice(db: Database, hosts: seq<HostEntry>, path: seq<nat>, k: nat, rest: seq<nat>)
    requires k < |path| && IsPath(db, hosts, path)
    requires path[k] < |db| && IsPath(db, db[path[k]].hosts, rest)
    ensures IsPath(db, hosts, path[..k + 1] + rest)
    ensures End(db, hosts, path[..k + 1] + rest) == End(db, db[path[k]].hosts, rest)
    decreases path
  {
    SplicedTail(path, k, rest);
    if k > 0 {
      Splice(db, db[path[0]].hosts, path[1..], k - 1, rest);
    }
  }

  lemma SplicedTail(path: seq<nat>, k: nat, rest: seq<nat>)
    requires k < |path|
    ensures var q := path[..k + 1] + rest; q[0] == path[0] && q[1..] == path[1..][..k] + rest
    ensures path[1..][..0] + rest == rest
  {
    assert path[..k + 1] == [path[0]] + path[1..][..k];
  }

  lemma {:induction false} SimplePath(db: Database, hosts: seq<HostEntry>, path: seq<nat>) returns (short: seq<nat>)
    requires IsPath(db, hosts, path)
    ensures IsPath(db, hosts, short) && NoRepeats(short)
    ensures End(db, hosts, short) == End(db, hosts, path)
    decreases |path|
  {
    if NoRepeats(path) {
      short := path;
    } else {
      var i, j :| 0 <= i < j < |path| && path[i] == path[j];
      PathTail(db, hosts, path, j);
      Splice(db, hosts, path, i, path[j + 1..]);
      short := SimplePath(db, hosts, path[..i + 1] + path[j + 1..]);
    }
  }

  lemma {:induction false} DistinctCount(path: seq<nat>, s: set<nat>)
    requires NoRepeats(path) && forall i :: 0 <= i < |path| ==> path[i] in s
    ensures |path| <= |s|
  {
    if path != [] {
      DistinctCount(path[1..], s - {path[0]});
    }
  }

  /**
   With at most 32 macro entries, cyclic or not, the depth limit hides nothing: the walk makes
   exactly the reachable calls and reports the local host exactly when one is reachable.
   */
  lemma LimitHidesNothing(w: Setting, hosts: seq<HostEntry>, o: Outcome)
    requires |Macros(w.db)| <= 32
    ensures Produces(WalkHosts(w, hosts, 0), o) <==> Reachable(w, hosts, o)
  {
    WalkIsBoundedReachability(w, hosts, o);
    if path :| IsPath(w.db, hosts, path) && ListYields(w, End(w.db, hosts, path), o) {
      var short := SimplePath(w.db, hosts, path);
      forall i | 0 <= i < |short| ensures short[i] in Macros(w.db) {
        PathTail(w.db, hosts, short, i);
      }
      DistinctCount(short, Macros(w.db));
    }
  }

  // ------------------------------------------------------- and 32 cannot be replaced by 33

  function ChainName(k: nat): (s: string) {
    if k == 0 then "%" else ChainName(k - 1) + "a"
  }

  /** n macros, each naming the next, the last naming one address. */
  function ChainDatabase(n: nat, a: Bytes): Database {
    seq(n, k requires 0 <= k < n =>
      DisplayEntry(DisplayAlias(ChainName(k)), false, false, false,
                   [if k + 1 < n then HostAlias(ChainName(k + 1)) else HostAddress(a)]))
  }

  lemma {:induction false} SameCharacters(s: string, t: string)
    requires forall i :: 0 <= i < |t| ==> t[i] == '%' || t[i] == 'a'
    requires forall i :: 0 <= i < |s| ==> s[i] == '%' || s[i] == 'a'
    ensures Scan(s, t) == Match <==> s == t
  {
    if s != "" && t != "" {
      SameCharacters(s[1..], t[1..]);
      assert s == [s[0]] + s[1..] && t == [t[0]] + t[1..];
    }
  }

  lemma {:induction false} ChainNameShape(k: nat)
    ensures |ChainName(k)| == k + 1
    ensures forall i :: 0 <= i <= k ==> ChainName(k)[i] == '%' || ChainName(k)[i] == 'a'
  {
    if k > 0 {
      ChainNameShape(k - 1);
    }
  }

  lemma ChainNamesDiffer(j: nat, k: nat)
    ensures Scan(ChainName(j), ChainName(k)) == Match <==> j == k
  {
    ChainNameShape(j);
    ChainNameShape(k);
    SameCharacters(ChainName(j), ChainName(k));
  }

  function Upto(k: nat, n: nat): (p: seq<nat>)
    requires k <= n
    ensures |p| == n - k
  {
    seq(n - k, i requires 0 <= i => k + i)
  }

  /** What is a path in a chain: one macro after the other. */
  predicate FollowsChain(n: nat, a: Bytes, k: nat, path: seq<nat>)
    requires k < n
  {
    var db, hosts := ChainDatabase(n, a), [HostAlias(ChainName(k))];
    && (IsPath(db, hosts, path) ==>
          && |path| <= n - k && path == Upto(k, k + |path|)
          && (path != [] ==> End(db, hosts, path) == db[k + |path| - 1].hosts))
    && (path == Upto(k, n) ==> IsPath(db, hosts, path))
  }

  lemma ChainLink(n: nat, a: Bytes, k: nat, j: nat)
    requires k < n && j < n
    ensures Leads(ChainDatabase(n, a), [HostAlias(ChainName(k))], j) <==> j == k
  {
    ChainNamesDiffer(k, j);
    var hosts := [HostAlias(ChainName(k))];
    assert hosts[0].HostAlias?;
  }

  lemma ChainEnd(n: nat, a: Bytes, path: seq<nat>)
    requires n > 0 && path != [] && path[0] == n - 1
    ensures FollowsChain(n, a, n - 1, path)
  {
    var db := ChainDatabase(n, a);
    ChainLink(n, a, n - 1, n - 1);
    assert db[n - 1].hosts == [HostAddress(a)];
    if path[1..] != [] {
      assert path[1] < n ==> !Leads(db, db[n - 1].hosts, path[1..][0]);
      assert !IsPath(db, db[n - 1].hosts, path[1..]);
    } else {
      assert path == [n - 1];
    }
  }

  lemma ChainStep(n: nat, a: Bytes, k: nat, path: seq<nat>)
    requires k + 1 < n && path != [] && path[0] == k && FollowsChain(n, a, k + 1, path[1..])
    ensures FollowsChain(n, a, k, path)
  {
    var db := ChainDatabase(n, a);
    ChainLink(n, a, k, k);
    var hosts, next := [HostAlias(ChainName(k))], [HostAlias(ChainName(k + 1))];
    assert |db| == n && db[path[0]].hosts == next;
    hide ChainDatabase, ChainName, Leads;
    assert IsPath(db, hosts, path) <==> IsPath(db, next, path[1..]);
    assert IsPath(db, hosts, path) ==> End(db, hosts, path) == End(db, next, path[1..]);
    assert path == [k] + path[1..];
    assert Upto(k, n) == [k] + Upto(k + 1, n);
    assert Upto(k, k + |path|) == [k] + Upto(k + 1, k + |path|);
    assert path == Upto(k, n) ==> path[1..] == Upto(k + 1, n);
  }

  lemma ChainElsewhere(n: nat, a: Bytes, k: nat, path: seq<nat>)
    requires k < n && (path == [] || path[0] != k)
    ensures FollowsChain(n, a, k, path)
  {
    if path != [] && path[0] < n {
      ChainLink(n, a, k, path[0]);
    }
    assert |ChainDatabase(n, a)| == n;
    hide ChainDatabase, ChainName, Leads;
    assert Upto(k, n)[0] == k;
  }

  lemma {:induction false} ChainPaths(n: nat, a: Bytes, k: nat, path: seq<nat>)
    requires k < n
    ensures FollowsChain(n, a, k, path)
    decreases n - k
  {
    hide FollowsChain;
    if path == [] || path[0] != k {
      ChainElsewhere(n, a, k, path);
    } else if k + 1 < n {
      ChainPaths(n, a, k + 1, path[1..]);
      ChainStep(n, a, k, path);
    } else {
      ChainEnd(n, a, path);
    }
  }

  /** In a chain of n macros the address at the end is always reachable, and found iff n <= 32. */
  lemma LimitIsTight(n: nat, a: Bytes, isLocal: Bytes -> bool)
    requires n > 0 && !isLocal(a)
    ensures var w := Setting(ChainDatabase(n, a), isLocal, false);
            var hosts := [HostAlias(ChainName(0))];
            && Reachable(w, hosts, Call(CalledAddress(a)))
            && (Produces(WalkHosts(w, hosts, 0), Call(CalledAddress(a))) <==> n <= 32)
  {
    var w := Setting(ChainDatabase(n, a), isLocal, false);
    var hosts := [HostAlias(ChainName(0))];
    var o := Call(CalledAddress(a));
    var full := Upto(0, n);
    ChainPaths(n, a, 0, full);
    assert Yields(w, End(w.db, hosts, full)[0], o);
    WalkIsBoundedReachability(w, hosts, o);
    if path :| |path| <= MAX_DEPTH && IsPath(w.db, hosts, path) && ListYields(w, End(w.db, hosts, path), o) {
      ChainPaths(n, a, 0, path);
    }
  }
}
