/**
 The first-match questions put to the Xaccess database (xdm/access.c): who is acceptable, who
 gets the chooser, and where an indirect query goes.
 */
module AccessQueries {
  import opened Options
  import opened Network
  import opened Globbing
  import opened AccessRules
  import opened Choices

  datatype QueryKind = DirectQuery | BroadcastQuery | IndirectQuery | ForwardQuery | OnRequest

  /** `hostname` is the client's name as looked up, empty when the lookup gives none. */
  predicate Concerns(e: DisplayEntry, c: Client, hostname: string) {
    match e.kind
    case DisplayAlias(_) => false
    case DisplayListen => false
    case DisplayPattern(p) => Scan(hostname, p) == Match
    case DisplayAddress(who) => who == c
  }

  /** The first entry for the client, among entries with a host list or among those without. */
  function FirstEntry(db: Database, c: Client, hostname: string, withHosts: bool): (r: Option<DisplayEntry>)
    ensures r.Some? <==> exists i :: 0 <= i < |db| && IsFirstEntry(db, c, hostname, withHosts, i)
    ensures forall i :: 0 <= i < |db| && IsFirstEntry(db, c, hostname, withHosts, i) ==> r == Some(db[i])
  {
    if db == [] then None
    else if Concerns(db[0], c, hostname) && (db[0].hosts != []) == withHosts then
      assert IsFirstEntry(db, c, hostname, withHosts, 0);
      Some(db[0])
    else
      assert forall i :: 0 <= i < |db[1..]| && IsFirstEntry(db[1..], c, hostname, withHosts, i) ==>
          IsFirstEntry(db, c, hostname, withHosts, i + 1) && db[1..][i] == db[i + 1];
      assert forall i :: 0 <= i < |db| && IsFirstEntry(db, c, hostname, withHosts, i) ==>
          i > 0 && IsFirstEntry(db[1..], c, hostname, withHosts, i - 1) && db[1..][i - 1] == db[i];
      FirstEntry(db[1..], c, hostname, withHosts)
  }

  predicate IsFirstEntry(db: Database, c: Client, hostname: string, withHosts: bool, i: int) {
    && 0 <= i < |db|
    && Concerns(db[i], c, hostname) && (db[i].hosts != []) == withHosts
    && forall j :: 0 <= j < i ==> !(Concerns(db[j], c, hostname) && (db[j].hosts != []) == withHosts)
  }

  /** The first entry with hosts is an allowed CHOOSER entry. */
  predicate ChooserEntry(db: Database, c: Client, hostname: string) {
    var e := FirstEntry(db, c, hostname, true);
    e.Some? && !e.value.notAllowed && e.value.chooser
  }

  /** `noFile`: no access file is configured, so everyone is welcome. */
  predicate Acceptable(db: Database, noFile: bool, c: Client, hostname: string, kind: QueryKind) {
    noFile || kind == IndirectQuery ||
    var e := FirstEntry(db, c, hostname, false);
    e.Some? && !e.value.notAllowed && (kind == BroadcastQuery ==> !e.value.notBroadcast)
  }

  /** Matching the client's name against the entry's pattern reads past the end of that pattern. */
  predicate PassesPattern(e: DisplayEntry, hostname: string) {
    e.kind.DisplayPattern? && Scan(hostname, e.kind.pattern) == Overrun
  }

  /** The search for an entry without hosts does not look at the others; the search for one with hosts looks at all. */
  predicate IsTried(e: DisplayEntry, withHosts: bool) {
    withHosts || e.hosts == []
  }

  predicate PassesAt(db: Database, c: Client, hostname: string, withHosts: bool, i: int) {
    && 0 <= i < |db| && IsTried(db[i], withHosts) && PassesPattern(db[i], hostname)
    && forall j :: 0 <= j < i ==> !(Concerns(db[j], c, hostname) && (db[j].hosts != []) == withHosts)
  }

  /** The search reads past a pattern before it finds its entry. */
  predicate SearchOverruns(db: Database, c: Client, hostname: string, withHosts: bool): (r: bool)
    ensures r <==> exists i :: PassesAt(db, c, hostname, withHosts, i)
  {
    if db == [] then false
    else if IsTried(db[0], withHosts) && PassesPattern(db[0], hostname) then
      assert PassesAt(db, c, hostname, withHosts, 0);
      true
    else if Concerns(db[0], c, hostname) && (db[0].hosts != []) == withHosts then
      assert forall i :: PassesAt(db, c, hostname, withHosts, i) ==> i == 0;
      false
    else
      assert forall i :: PassesAt(db[1..], c, hostname, withHosts, i) ==> PassesAt(db, c, hostname, withHosts, i + 1);
      assert forall i :: PassesAt(db, c, hostname, withHosts, i) ==> i > 0 && PassesAt(db[1..], c, hostname, withHosts, i - 1);
      SearchOverruns(db[1..], c, hostname, withHosts)
  }

  predicate AcceptOverruns(db: Database, noFile: bool, c: Client, hostname: string, kind: QueryKind) {
    !noFile && kind != IndirectQuery && SearchOverruns(db, c, hostname, false)
  }

  predicate IndirectOverruns(db: Database, c: Client, hostname: string) {
    var e := FirstEntry(db, c, hostname, true);
    || SearchOverruns(db, c, hostname, true)
    || (e.Some? && !e.value.notAllowed && !e.value.chooser && HostsOverrun(db, e.value.hosts, 0))
  }

  method FindFirstEntry(db: Database, c: Client, hostname: string, withHosts: bool)
      returns (r: Option<DisplayEntry>, overrun: bool)
    ensures overrun == SearchOverruns(db, c, hostname, withHosts)
    ensures !overrun ==> r == FirstEntry(db, c, hostname, withHosts)
  {
    hide SearchOverruns, FirstEntry, IsFirstEntry, PassesAt, Scan;
    r, overrun := None, false;
    assert db[0..] == db;
    for k := 0 to |db|
      invariant SearchOverruns(db, c, hostname, withHosts) == SearchOverruns(db[k..], c, hostname, withHosts)
      invariant FirstEntry(db, c, hostname, withHosts) == FirstEntry(db[k..], c, hostname, withHosts)
    {
      var d := db[k];
      SearchStep(db, c, hostname, withHosts, k);
      if !withHosts && d.hosts != [] {
        continue;
      }
      var concerns := false;
      match d.kind {
        case DisplayAlias(_) =>
        case DisplayListen =>
        case DisplayPattern(p) =>
          var v := PatternMatch(hostname, p);
          if v == Overrun {
            return None, true;
          }
          concerns := v == Match;
        case DisplayAddress(who) =>
          concerns := who == c;
      }
      if concerns && (d.hosts != []) == withHosts {
        return Some(d), false;
      }
    }
    SearchEnds(db, c, hostname, withHosts);
  }

  lemma SearchStep(db: Database, c: Client, hostname: string, withHosts: bool, k: nat)
    requires k < |db|
    ensures var here := IsTried(db[k], withHosts) && PassesPattern(db[k], hostname);
            var found := Concerns(db[k], c, hostname) && (db[k].hosts != []) == withHosts;
            && SearchOverruns(db[k..], c, hostname, withHosts)
               == (here || (!found && SearchOverruns(db[k + 1..], c, hostname, withHosts)))
            && FirstEntry(db[k..], c, hostname, withHosts)
               == (if found then Some(db[k]) else FirstEntry(db[k + 1..], c, hostname, withHosts))
  {
    hide IsFirstEntry, PassesAt, Concerns, PassesPattern;
    assert db[k..][0] == db[k] && db[k..][1..] == db[k + 1..];
  }

  lemma SearchEnds(db: Database, c: Client, hostname: string, withHosts: bool)
    ensures !SearchOverruns(db[|db|..], c, hostname, withHosts) && FirstEntry(db[|db|..], c, hostname, withHosts) == None
  {
    hide IsFirstEntry, PassesAt;
    assert db[|db|..] == [];
  }

  method AcceptableDisplayAddress(db: Database, noFile: bool, c: Client, hostname: string, kind: QueryKind)
      returns (b: bool, overrun: bool)
    ensures overrun == AcceptOverruns(db, noFile, c, hostname, kind)
    ensures !overrun ==> b == Acceptable(db, noFile, c, hostname, kind)
  {
    if noFile || kind == IndirectQuery {
      return true, false;
    }
    var e;
    e, overrun := FindFirstEntry(db, c, hostname, false);
    b := e.Some? && !e.value.notAllowed && (kind == BroadcastQuery ==> !e.value.notBroadcast);
  }

  /**
   An address stands for the client of that type and address, a pattern for all clients whose names it describes,
   unless it is one of those the matcher is not complete for; macros and LISTEN entries are for nobody.
   */
  lemma ConcernsExactly(e: DisplayEntry, c: Client, hostname: string)
    ensures Concerns(e, c, hostname) ==>
              || (e.kind.DisplayAddress? && e.kind.client.connectionType == c.connectionType && e.kind.client.address == c.address)
              || (e.kind.DisplayPattern? && (!LoneBackslash(e.kind.pattern) ==> Glob(hostname, Tokens(e.kind.pattern))))
    ensures e.kind.DisplayAddress? && e.kind.client.connectionType == c.connectionType && e.kind.client.address == c.address ==>
              Concerns(e, c, hostname)
    ensures e.kind.DisplayPattern? && !LoneBackslash(e.kind.pattern) && !EndsInTwoStars(Tokens(e.kind.pattern)) ==>
              (Concerns(e, c, hostname) <==> Glob(hostname, Tokens(e.kind.pattern)))
  {
    hide Scan, Glob;
    if e.kind.DisplayPattern? && !LoneBackslash(e.kind.pattern) {
      if Scan(hostname, e.kind.pattern) == Match {
        MatcherIsSound(hostname, e.kind.pattern);
      }
      MatcherIsCompleteExactly(e.kind.pattern);
    }
  }

  /** An entry without hosts decides, as the first for the client, and lets it in. */
  predicate LetsIn(db: Database, c: Client, hostname: string, kind: QueryKind, i: int) {
    && IsFirstEntry(db, c, hostname, false, i)
    && !db[i].notAllowed && (kind == BroadcastQuery ==> !db[i].notBroadcast)
  }

  predicate IsLetIn(db: Database, c: Client, hostname: string, kind: QueryKind) {
    exists i :: 0 <= i < |db| && LetsIn(db, c, hostname, kind, i)
  }

  /**
   Without an access file everyone is acceptable, and to an indirect query everyone is; otherwise
   exactly those an entry lets in: a client no entry is for is turned away.
   */
  lemma AcceptableExactly(db: Database, noFile: bool, c: Client, hostname: string, kind: QueryKind)
    ensures Acceptable(db, noFile, c, hostname, kind) <==>
              noFile || kind == IndirectQuery || IsLetIn(db, c, hostname, kind)
  {
    hide IsFirstEntry;
    if FirstEntry(db, c, hostname, false).Some? {
      var i :| 0 <= i < |db| && IsFirstEntry(db, c, hostname, false, i);
      assert LetsIn(db, c, hostname, kind, i) <==> !db[i].notAllowed && (kind == BroadcastQuery ==> !db[i].notBroadcast);
      FirstIsOne(db, c, hostname, false);
    }
  }

  lemma FirstIsOne(db: Database, c: Client, hostname: string, withHosts: bool)
    ensures forall i, j :: IsFirstEntry(db, c, hostname, withHosts, i) && IsFirstEntry(db, c, hostname, withHosts, j) ==> i == j
    ensures forall i :: IsFirstEntry(db, c, hostname, withHosts, i) ==> 0 <= i < |db|
  {
  }

  method UseChooser(db: Database, list: ChoiceList, c: Client, hostname: string, now: int)
      returns (b: bool, overrun: bool)
    modifies list
    ensures overrun == SearchOverruns(db, c, hostname, true)
    ensures overrun ==> list.choices == old(list.choices)
    ensures !overrun ==>
              && b == (ChooserEntry(db, c, hostname) && Lookup(old(list.choices), c, now, list.timeout).0 == None)
              && list.choices == if ChooserEntry(db, c, hostname)
                                 then Lookup(old(list.choices), c, now, list.timeout).1
                                 else old(list.choices)
  {
    var e;
    e, overrun := FindFirstEntry(db, c, hostname, true);
    if overrun || e == None || e.value.notAllowed || !e.value.chooser {
      return false, overrun;
    }
    var choice := list.IndirectChoice(c, now);
    return choice == None, false;
  }

  /** Whether an address is local is asked with the client's own connection type. */
  function Near(isLocal: Client -> bool, c: Client): Bytes -> bool {
    a => isLocal(Client(c.connectionType, a))
  }

  /** Where an indirect query goes, with no side effect on the choice list. */
  function IndirectTargets(db: Database, isLocal: Client -> bool, c: Client, hostname: string, choice: Option<Bytes>): Walk {
    var e := FirstEntry(db, c, hostname, true);
    if e == None || e.value.notAllowed then NOTHING
    else if !e.value.chooser then WalkHosts(Setting(db, Near(isLocal, c), false), e.value.hosts, 0)
    else if choice == None || Near(isLocal, c)(choice.value) then Walk(true, [])
    else Walk(false, [CalledAddress(choice.value)])
  }

  method ForEachMatchingIndirectHost(db: Database, isLocal: Client -> bool, list: ChoiceList, c: Client, hostname: string,
                                     now: int) returns (r: Walk, overrun: bool)
    modifies list
    ensures overrun == IndirectOverruns(db, c, hostname)
    ensures overrun ==> list.choices == old(list.choices)
    ensures !overrun ==>
              && r == IndirectTargets(db, isLocal, c, hostname, Lookup(old(list.choices), c, now, list.timeout).0)
              && list.choices == if ChooserEntry(db, c, hostname)
                                 then Lookup(old(list.choices), c, now, list.timeout).1
                                 else old(list.choices)
  {
    var e;
    e, overrun := FindFirstEntry(db, c, hostname, true);
    if overrun || e == None || e.value.notAllowed {
      return NOTHING, overrun;
    }
    if e.value.chooser {
      var choice := list.IndirectChoice(c, now);
      if choice == None || Near(isLocal, c)(choice.value) {
        return Walk(true, []), false;
      }
      return Walk(false, [CalledAddress(choice.value)]), false;
    }
    r, overrun := ScanHostlist(Setting(db, Near(isLocal, c), false), e.value.hosts, 0);
  }

  /**
   An indirect query without a chooser is forwarded to exactly the reachable hosts of the first
   entry with hosts, and answered here exactly when the local host is reachable from it.
   */
  lemma IndirectReachesExactly(db: Database, isLocal: Client -> bool, c: Client, hostname: string, o: Outcome, i: nat,
                               choice: Option<Bytes>)
    requires |Macros(db)| <= MAX_DEPTH
    requires IsFirstEntry(db, c, hostname, true, i) && !db[i].chooser
    ensures Produces(IndirectTargets(db, isLocal, c, hostname, choice), o) <==>
            !db[i].notAllowed && Reachable(Setting(db, Near(isLocal, c), false), db[i].hosts, o)
  {
    assert FirstEntry(db, c, hostname, true) == Some(db[i]);
    LimitHidesNothing(Setting(db, Near(isLocal, c), false), db[i].hosts, o);
  }

  /**
   Behind a chooser entry that is not negated the client's choice is all there is to call, unless it is
   local; without a choice, or with a local one, the query is answered here.
   */
  lemma ChoiceIsFollowed(db: Database, isLocal: Client -> bool, c: Client, hostname: string, choice: Option<Bytes>, i: nat)
    requires IsFirstEntry(db, c, hostname, true, i) && db[i].chooser && !db[i].notAllowed
    ensures var targets := IndirectTargets(db, isLocal, c, hostname, choice);
            && (targets.local <==> choice == None || isLocal(Client(c.connectionType, choice.value)))
            && forall to :: CalledAddress(to) in targets.calls <==>
                 choice == Some(to) && !isLocal(Client(c.connectionType, to))
  {
    assert FirstEntry(db, c, hostname, true) == Some(db[i]);
  }

  /** A client no entry with hosts is for, or a negated one, gets nothing from an indirect query. */
  lemma NoEntryNoTargets(db: Database, isLocal: Client -> bool, c: Client, hostname: string, choice: Option<Bytes>)
    requires forall i :: 0 <= i < |db| && IsFirstEntry(db, c, hostname, true, i) ==> db[i].notAllowed
    ensures IndirectTargets(db, isLocal, c, hostname, choice) == NOTHING
  {
    if FirstEntry(db, c, hostname, true).Some? {
      var i :| 0 <= i < |db| && IsFirstEntry(db, c, hostname, true, i);
    }
  }

  lemma {:induction false} FirstOfTwo(db: Database, more: Database, c: Client, hostname: string, withHosts: bool)
    ensures FirstEntry(db + more, c, hostname, withHosts)
         == if FirstEntry(db, c, hostname, withHosts).Some? then FirstEntry(db, c, hostname, withHosts)
            else FirstEntry(more, c, hostname, withHosts)
  {
    if db == [] {
      assert db + more == more;
    } else {
      assert (db + more)[1..] == db[1..] + more;
      FirstOfTwo(db[1..], more, c, hostname, withHosts);
    }
  }

  /**
   CHOOSER on a line that lists no hosts does nothing for the chooser: with or without that line the
   same clients get it. Instead the line is a direct entry: where no earlier one decides, it makes
   its displays welcome.
   */
  lemma ChooserNeedsHosts(before: Database, e: DisplayEntry, after: Database, c: Client, hostname: string, kind: QueryKind)
    requires e.chooser && e.hosts == []
    ensures ChooserEntry(before + [e] + after, c, hostname) == ChooserEntry(before + after, c, hostname)
    ensures Concerns(e, c, hostname) && FirstEntry(before, c, hostname, false) == None && kind != IndirectQuery ==>
              (Acceptable(before + [e] + after, false, c, hostname, kind) <==>
                 !e.notAllowed && (kind == BroadcastQuery ==> !e.notBroadcast))
  {
    assert ([e] + after)[1..] == after && before + [e] + after == before + ([e] + after);
    forall withHosts: bool
      ensures FirstEntry([e] + after, c, hostname, withHosts)
           == if Concerns(e, c, hostname) && !withHosts then Some(e) else FirstEntry(after, c, hostname, withHosts)
    {
    }
    FirstOfTwo(before, [e] + after, c, hostname, true);
    FirstOfTwo(before, after, c, hostname, true);
    FirstOfTwo(before, [e] + after, c, hostname, false);
  }

  // ------------------------------------------------------- searches that read past a pattern

  /** A pattern the matcher reads past, for some string. */
  predicate IsBad(p: string) {
    LoneBackslash(p) && !LastIsStar(Tokens(p))
  }

  predicate HasBadPattern(db: Database) {
    exists i :: 0 <= i < |db| && BadEntry(db[i])
  }

  predicate BadEntry(e: DisplayEntry) {
    match e.kind
    case DisplayPattern(p) => IsBad(p)
    case DisplayAlias(name) => IsBad(name)
    case DisplayAddress(_) => false
    case DisplayListen => false
  }

  /** Judging a client reads past a pattern exactly if one without hosts is read past before an entry decides. */
  lemma AcceptOverrunsExactly(db: Database, noFile: bool, c: Client, hostname: string, kind: QueryKind)
    ensures AcceptOverruns(db, noFile, c, hostname, kind) <==>
              && !noFile && kind != IndirectQuery
              && exists i :: 0 <= i < |db| && db[i].hosts == [] && PassesPattern(db[i], hostname)
                             && forall j :: 0 <= j < i ==> db[j].hosts != [] || !Concerns(db[j], c, hostname)
  {
    hide PassesPattern, Concerns;
    if i :| 0 <= i < |db| && db[i].hosts == [] && PassesPattern(db[i], hostname)
            && forall j :: 0 <= j < i ==> db[j].hosts != [] || !Concerns(db[j], c, hostname) {
      assert PassesAt(db, c, hostname, false, i);
    }
  }

  /** Without bad patterns no question reads past one, whoever asks. */
  lemma OverrunsNeedBadPatterns(db: Database, c: Client, hostname: string, withHosts: bool, hosts: seq<HostEntry>)
    ensures SearchOverruns(db, c, hostname, withHosts) || HostsOverrun(db, hosts, 0) ==> HasBadPattern(db)
  {
    if i :| PassesAt(db, c, hostname, withHosts, i) {
      OverrunHasCause(hostname, db[i].kind.pattern);
      assert BadEntry(db[i]);
    }
    WalkOverrunsExactly(db, hosts);
    if path :| |path| < MAX_DEPTH && IsPath(db, hosts, path) && ListPasses(db, End(db, hosts, path)) {
      var list := End(db, hosts, path);
      var j, i :| 0 <= j < |list| && 0 <= i < |db| && list[j].HostAlias? && PassesName(db[i], list[j].name);
      OverrunHasCause(list[j].name, db[i].kind.name);
      assert BadEntry(db[i]);
    }
  }
}
