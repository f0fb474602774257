/** What a rescan of the servers file does to the list: unlisted displays go, listed ones are left in peace. */
module Rescans {
  import opened Options
  import opened Displays
  import opened Lifecycle

  /** A display the servers file still lists, or that is marked as missing from it. */
  predicate Marked(d: Display, lines: seq<seq<string>>) {
    d.state == MissingEntry || Mentions(lines, d.name)
  }

  /** A display from the servers file that is not being stopped is listed in it. */
  predicate Settled(d: Display, lines: seq<seq<string>>) {
    d.displayType.origin == FromFile && d.status != Zombie ==> Mentions(lines, d.name)
  }

  lemma {:induction false} ScanMarks(ds: seq<Display>, rest: seq<seq<string>>, lines: seq<seq<string>>)
    requires forall d :: d in ds ==> Marked(d, lines)
    requires forall l :: l in rest ==> l in lines
    ensures forall d :: d in ScanServers(ds, rest) ==> Marked(d, lines)
    decreases rest
  {
    if rest != [] {
      var mid := ParseDisplay(ds, rest[0]);
      if |rest[0]| >= 2 {
        assert rest[0] in lines;
        var k :| 0 <= k < |lines| && lines[k] == rest[0];
        assert Mentions(lines, rest[0][0]);
      }
      forall d | d in mid ensures Marked(d, lines) {
        var i :| 0 <= i < |mid| && mid[i] == d;
        assert d in ds || (|rest[0]| >= 2 && d.name == rest[0][0]);
      }
      ScanMarks(mid, rest[1..], lines);
    }
  }

  predicate AllSettled(ds: seq<Display>, n: nat, lines: seq<seq<string>>)
    requires n <= |ds|
  {
    forall k :: 0 <= k < n ==> Settled(ds[k], lines)
  }

  lemma {:induction false} CheckSettles(st: State, i: nat, db: Database, os: seq<Outcome>, lines: seq<seq<string>>)
    requires i <= |st.displays| && AllSettled(st.displays, i, lines)
    requires forall k :: i <= k < |st.displays| ==> Marked(st.displays[k], lines)
    ensures var after := CheckFrom(st, i, db, os).displays; AllSettled(after, |after|, lines)
    decreases |st.displays| - i
  {
    if i < |st.displays| {
      var r := CheckDisplayStatus(st.displays[i], st.children, db, OutcomeAt(os));
      var mid := Update(st, i, r);
      assert r.display.Some? ==> Settled(r.display.value, lines);
      hide CheckDisplayStatus;
      assert forall k :: 0 <= k < |mid.displays| && k != i ==> mid.displays[k] == st.displays[Source(i, r.display, k)];
      CheckSettles(mid, if r.display == None then i else i + 1, db, if os == [] then [] else os[1..], lines);
    }
  }

  /** After a rescan that the manager survives every display from the servers file is listed in it, or is on its way out. */
  lemma RescanDropsUnlisted(st: State, lines: seq<seq<string>>, db: Database, os: seq<Outcome>)
    requires Reread(st, lines).alive
    ensures var after := Rescan(st, lines, db, os).displays;
            forall k :: 0 <= k < |after| && after[k].displayType.origin == FromFile && after[k].status != Zombie ==>
              Mentions(lines, after[k].name)
  {
    var marked := MarkAll(st.displays);
    assert forall d :: d in marked ==> d.state == MissingEntry;
    ScanMarks(marked, lines, lines);
    var ready := Reread(st, lines);
    CheckSettles(ready, 0, db, os, lines);
    hide CheckFrom, ScanServers;
    var after := Rescan(st, lines, db, os).displays;
    assert AllSettled(after, |after|, lines);
    assert forall k :: 0 <= k < |after| ==> Settled(after[k], lines);
  }

  // ---------------------------------------------------------------- listed displays

  /** The first display of the name is this one, but for what the servers file says of it. */
  predicate IsFirst(ds: seq<Display>, d: Display) {
    var i := FirstNamed(ds, d.name);
    i < |ds| && SameButFile(d, ds[i])
  }

  predicate IsListed(ds: seq<Display>, d: Display) {
    var i := FirstNamed(ds, d.name);
    IsFirst(ds, d) && ds[i].state == OldEntry && ds[i].displayType.origin == FromFile
  }

  lemma ParseLists(ds: seq<Display>, words: seq<string>, d: Display)
    requires IsFirst(ds, d)
    ensures IsFirst(ParseDisplay(ds, words), d)
    ensures !ReadsNull(ds, words) && (IsListed(ds, d) || (|words| >= 2 && words[0] == d.name)) ==> IsListed(ParseDisplay(ds, words), d)
  {
    hide KnownType, TypeOf;
    var after, f := ParseDisplay(ds, words), FirstNamed(ds, d.name);
    if |words| >= 2 {
      FirstIs(after, d.name, if FirstNamed(ds, words[0]) < |ds| then f else f + 1);
    }
  }

  lemma {:induction false} ScanLists(ds: seq<Display>, lines: seq<seq<string>>, d: Display)
    requires IsFirst(ds, d) && (IsListed(ds, d) || Mentions(lines, d.name)) && Survives(ds, lines)
    ensures IsListed(ScanServers(ds, lines), d)
    decreases lines
  {
    if lines != [] {
      ParseLists(ds, lines[0], d);
      if !IsListed(ParseDisplay(ds, lines[0]), d) {
        var k :| 0 <= k < |lines| && |lines[k]| >= 2 && lines[k][0] == d.name;
        assert k > 0 && lines[1..][k - 1] == lines[k];
      }
      ScanLists(ParseDisplay(ds, lines[0]), lines[1..], d);
    }
  }

  lemma ReplaceLists(ds: seq<Display>, i: nat, r: Option<Display>, d: Display)
    requires IsListed(ds, d) && i < |ds| && (r.Some? ==> r.value.name == ds[i].name)
    requires i == FirstNamed(ds, d.name) ==> r == Some(ds[i])
    ensures IsListed(Replace(ds, i, r), d)
  {
    FirstAfter(ds, i, r, d.name);
    hide FirstNamed;
  }

  lemma CheckKeepsName(d: Display, children: set<Pid>, db: Database, o: Outcome)
    ensures var r := CheckDisplayStatus(d, children, db, o).display; r.Some? ==> r.value.name == d.name
    ensures d.state == OldEntry && d.status != NotRunning && d.displayType.origin == FromFile ==>
              CheckDisplayStatus(d, children, db, o).display == Some(d)
  {
  }

  lemma {:induction false} CheckLists(st: State, i: nat, db: Database, os: seq<Outcome>, d: Display)
    requires i <= |st.displays| && IsListed(st.displays, d) && d.status != NotRunning
    ensures IsListed(CheckFrom(st, i, db, os).displays, d)
    decreases |st.displays| - i
  {
    if i < |st.displays| {
      var r := CheckDisplayStatus(st.displays[i], st.children, db, OutcomeAt(os));
      CheckKeepsName(st.displays[i], st.children, db, OutcomeAt(os));
      hide CheckDisplayStatus;
      ReplaceLists(st.displays, i, r.display, d);
      hide IsListed;
      CheckLists(Update(st, i, r), if r.display == None then i else i + 1, db, if os == [] then [] else os[1..], d);
    }
  }

  /** A display in use whose name is still listed keeps its status, its processes and its counters. */
  lemma RescanSparesListed(st: State, lines: seq<seq<string>>, db: Database, os: seq<Outcome>, i: nat)
    requires Inv(st) && i < |st.displays| && Mentions(lines, st.displays[i].name)
    requires st.displays[i].status == Running || st.displays[i].status == Phoenix
    requires Reread(st, lines).alive
    ensures IsListed(Rescan(st, lines, db, os).displays, st.displays[i])
  {
    var d, marked := st.displays[i], MarkAll(st.displays);
    LiveDisplayIsFirst(st, i);
    FirstIs(marked, d.name, i);
    ScanLists(marked, lines, d);
    CheckLists(Reread(st, lines), 0, db, os, d);
  }

  // ---------------------------------------------------------------- idle displays

  /** The processes an outcome brings. */
  function Brought(o: Outcome): set<Pid> {
    PidsOf(o.server) + PidsOf(o.session)
  }

  predicate Succeeds(o: Outcome, children: set<Pid>) {
    o.server.Some? && o.session.Some? && o.server != o.session && Brought(o) !! children
  }

  /** Starting succeeds for the next `n` displays. */
  predicate Supplies(os: seq<Outcome>, n: nat, children: set<Pid>) {
    n <= |os| && (forall i :: 0 <= i < n ==> Succeeds(os[i], children))
    && (forall i, j :: 0 <= i < j < n ==> Brought(os[i]) !! Brought(os[j]))
  }

  /** A permanent display from the servers file is in use. */
  predicate IsUp(d: Display) {
    d.displayType.origin == FromFile && d.displayType.lifetime == Permanent ==> d.status != NotRunning
  }

  lemma CheckBringsUp(d: Display, children: set<Pid>, db: Database, o: Outcome)
    requires Succeeds(o, children)
    ensures var r := CheckDisplayStatus(d, children, db, o);
            && (r.display.Some? ==> IsUp(r.display.value))
            && children <= r.children <= children + Brought(o)
            && (d.state != MissingEntry ==> r.display.Some?)
  {
  }

  lemma SuppliesRest(os: seq<Outcome>, n: nat, children: set<Pid>, more: set<Pid>)
    requires n > 0 && Supplies(os, n, children) && more <= children + Brought(os[0])
    ensures Supplies(os[1..], n - 1, more)
  {
    hide Brought;
    assert forall i :: 0 <= i < n - 1 ==> os[1..][i] == os[i + 1] && Succeeds(os[i + 1], children) && Brought(os[0]) !! Brought(os[i + 1]);
  }

  predicate AllUp(ds: seq<Display>, n: nat)
    requires n <= |ds|
  {
    forall k :: 0 <= k < n ==> IsUp(ds[k])
  }

  /** When every fork succeeds, checking the displays leaves no permanent one idle, and drops none that is listed. */
  lemma {:induction false} CheckingBringsAllUp(st: State, i: nat, db: Database, os: seq<Outcome>)
    requires i <= |st.displays| && AllUp(st.displays, i) && Supplies(os, |st.displays| - i, st.children)
    ensures var after := CheckFrom(st, i, db, os).displays;
            AllUp(after, |after|)
            && ((forall k :: i <= k < |st.displays| ==> st.displays[k].state != MissingEntry) ==> |after| == |st.displays|)
    decreases |st.displays| - i
  {
    if i < |st.displays| {
      var r := CheckDisplayStatus(st.displays[i], st.children, db, os[0]);
      var mid := Update(st, i, r);
      CheckBringsUp(st.displays[i], st.children, db, os[0]);
      hide CheckDisplayStatus, Brought, Succeeds;
      SuppliesRest(os, |st.displays| - i, st.children, r.children);
      assert forall k :: 0 <= k < |mid.displays| && k != i ==> mid.displays[k] == st.displays[Source(i, r.display, k)];
      hide Supplies;
      CheckingBringsAllUp(mid, if r.display == None then i else i + 1, db, os[1..]);
    }
  }

  /** Still to run after the pass: running and not to be stopped, or to be started. */
  predicate WillRun(d: Display, name: string) {
    d.name == name && (Startable(d) || (d.status == Running && !(d.displayType.origin == FromFile && d.state == MissingEntry)))
  }

  predicate Startable(d: Display) {
    && d.status == NotRunning && d.displayType.origin == FromFile && d.displayType.lifetime == Permanent
    && d.state != MissingEntry
  }

  predicate IsRunning(d: Display, name: string) {
    d.name == name && d.status == Running
  }

  lemma CheckRunsOne(d: Display, children: set<Pid>, db: Database, o: Outcome, name: string)
    requires Succeeds(o, children)
    ensures var r := CheckDisplayStatus(d, children, db, o).display; r.Some? && IsRunning(r.value, name) <==> WillRun(d, name)
  {
  }

  predicate RunsOrWill(ds: seq<Display>, i: nat, name: string)
    requires i <= |ds|
  {
    exists k :: 0 <= k < |ds| && if k < i then IsRunning(ds[k], name) else WillRun(ds[k], name)
  }

  lemma {:induction false} CheckRunsExactly(st: State, i: nat, db: Database, os: seq<Outcome>, name: string)
    requires i <= |st.displays| && Supplies(os, |st.displays| - i, st.children)
    ensures var after := CheckFrom(st, i, db, os).displays; RunsOrWill(after, |after|, name) <==> RunsOrWill(st.displays, i, name)
    decreases |st.displays| - i
  {
    if i < |st.displays| {
      var ds, r := st.displays, CheckDisplayStatus(st.displays[i], st.children, db, os[0]);
      var mid, next := Update(st, i, r), if r.display == None then i else i + 1;
      CheckBringsUp(ds[i], st.children, db, os[0]);
      CheckRunsOne(ds[i], st.children, db, os[0], name);
      hide CheckDisplayStatus, Brought, Succeeds, IsRunning, WillRun;
      SuppliesRest(os, |ds| - i, st.children, r.children);
      hide Supplies;
      CheckRunsExactly(mid, next, db, os[1..], name);
      ReplaceRuns(ds, i, r.display, name);
      hide RunsOrWill;
    }
  }

  lemma ReplaceRuns(ds: seq<Display>, i: nat, r: Option<Display>, name: string)
    requires i < |ds| && (r.Some? && IsRunning(r.value, name) <==> WillRun(ds[i], name))
    ensures var mid := Replace(ds, i, r); RunsOrWill(mid, if r == None then i else i + 1, name) <==> RunsOrWill(ds, i, name)
  {
    hide IsRunning, WillRun;
    var mid, next := Replace(ds, i, r), if r == None then i else i + 1;
    assert forall k :: 0 <= k < |mid| && k != i ==> mid[k] == ds[Source(i, r, k)];
    if RunsOrWill(ds, i, name) {
      var k :| 0 <= k < |ds| && if k < i then IsRunning(ds[k], name) else WillRun(ds[k], name);
      var t := if r == None && k > i then k - 1 else k;
      assert if t < next then IsRunning(mid[t], name) else WillRun(mid[t], name);
    }
    if RunsOrWill(mid, next, name) {
      var t :| 0 <= t < |mid| && if t < next then IsRunning(mid[t], name) else WillRun(mid[t], name);
      var k := Source(i, r, t);
      assert if k < i then IsRunning(ds[k], name) else WillRun(ds[k], name);
    }
  }

  /**
   One pass over the list, when every fork succeeds: a display that is not running is running after
   it exactly when it is a permanent one from the servers file that is not marked missing.
   */
  lemma PassStartsExactly(st: State, db: Database, os: seq<Outcome>, i: nat)
    requires Inv(st) && i < |st.displays| && st.displays[i].status == NotRunning
    requires Supplies(os, |st.displays|, st.children)
    ensures var after := StartDisplays(st, db, os).displays;
            (exists k :: 0 <= k < |after| && IsRunning(after[k], st.displays[i].name)) <==> Startable(st.displays[i])
  {
    var name := st.displays[i].name;
    CheckRunsExactly(st, 0, db, os, name);
    LiveDisplayIsFirst(st, i);
    hide Inv, CheckFrom, Supplies;
    var after := StartDisplays(st, db, os).displays;
    assert RunsOrWill(st.displays, 0, name) <==> Startable(st.displays[i]) by {
      if Startable(st.displays[i]) {
        assert WillRun(st.displays[i], name);
      }
    }
    assert RunsOrWill(after, |after|, name) <==> exists k :: 0 <= k < |after| && IsRunning(after[k], name);
  }

  // ---------------------------------------------------------------- what a line says

  predicate IsTypeWord(word: string) {
    word == "local" || word == "foreign" || word == "dynamic"
  }

  /** Permanent local, permanent foreign, or transient local, and of the servers file. */
  predicate IsTypeFor(word: string, t: DisplayType) {
    && t.origin == FromFile
    && (t.location == Foreign <==> word == "foreign") && (t.lifetime == Transient <==> word == "dynamic")
  }

  function Line(name: string, cls: Option<string>, word: string, args: seq<string>): seq<string> {
    [name] + (if cls.Some? then [cls.value] else []) + [word] + args
  }

  lemma LineHas(name: string, cls: Option<string>, word: string, args: seq<string>)
    requires IsTypeWord(word) && (cls.Some? ==> !IsTypeWord(cls.value))
    ensures var words := Line(name, cls, word, args);
            && |words| >= 2 && words[0] == name && IsTypeFor(word, TypeOf(words))
            && ArgumentsOf(words) == args && ClassOf(words) == cls
  {
    var words := Line(name, cls, word, args);
    assert words[if cls.Some? then 2 else 1] == word && words[if cls.Some? then 3 else 2..] == args;
    assert cls.Some? ==> words[1] == cls.value;
  }

  /** A new display: nothing runs, nothing was tried. */
  predicate IsNewDisplay(d: Display, name: string, cls: Option<string>, args: seq<string>) {
    && d.name == name && d.cls == cls && d.argv == Some(args) && d.status == NotRunning && d.pid == d.serverPid == None
    && d.state == NewEntry && d.startTries == d.reservTries == 0 && d.lastReserv == 0 && d.link == NO_LINK
  }

  /**
   A line with a type, read and survived: the first display of its name keeps everything but its mark, type,
   arguments and, if the line has one, its class; if there is none, a new one with these stands
   in front. Other displays stay as they are.
   */
  lemma LineIsRead(ds: seq<Display>, name: string, cls: Option<string>, word: string, args: seq<string>)
    requires IsTypeWord(word) && (cls.Some? ==> !IsTypeWord(cls.value)) && !ReadsNull(ds, Line(name, cls, word, args))
    ensures var after, f := ParseDisplay(ds, Line(name, cls, word, args)), FirstNamed(ds, name);
            if f < |ds| then
              && |after| == |ds| && (forall k :: 0 <= k < |ds| && k != f ==> after[k] == ds[k])
              && after[f] == ds[f].(state := OldEntry, displayType := after[f].displayType, argv := Some(args),
                                    cls := if cls.Some? then cls else ds[f].cls)
              && IsTypeFor(word, after[f].displayType)
            else
              after[1..] == ds && IsNewDisplay(after[0], name, cls, args) && IsTypeFor(word, after[0].displayType)
  {
    LineHas(name, cls, word, args);
    hide Line, TypeOf, ArgumentsOf, FirstNamed, IsTypeFor, IsTypeWord, KnownType;
  }

  /** A line without any type word is for a permanent local display; all words after the second are arguments. */
  lemma UntypedLine(words: seq<string>)
    requires |words| >= 2 && !IsTypeWord(words[1]) && (|words| > 2 ==> !IsTypeWord(words[2]))
    ensures IsTypeFor("local", TypeOf(words)) && ArgumentsOf(words) == words[2..] && ClassOf(words) == None
  {
  }

  // ---------------------------------------------------------------- lines the manager does not survive

  /** Null argument lists are those of displays from XDMCP, as in every run. */
  predicate OfTheirOrigin(ds: seq<Display>) {
    forall d :: d in ds ==> IsOfItsOrigin(d)
  }

  /** The line finds a display from XDMCP by its name. */
  predicate NamesXdmcp(ds: seq<Display>, words: seq<string>) {
    |words| >= 2 &&
    var f := FirstNamed(ds, words[0]);
    f < |ds| && ds[f].displayType.origin == FromXdmcp
  }

  /** The first line to give a class to a display that has none: listed without one, or made by an earlier line. */
  predicate GivesClassToNone(ds: seq<Display>, lines: seq<seq<string>>, k: nat)
    requires k < |lines|
  {
    HasClass(lines[k]) &&
    var name := lines[k][0];
    var f := FirstNamed(ds, name);
    && (forall j :: 0 <= j < k && NamesDisplay(lines[j], name) ==> !HasClass(lines[j]))
    && if f < |ds| then ds[f].cls == None else exists j :: 0 <= j < k && NamesDisplay(lines[j], name)
  }

  predicate IsFatal(ds: seq<Display>, lines: seq<seq<string>>, k: nat)
    requires k < |lines|
  {
    NamesXdmcp(ds, lines[k]) || GivesClassToNone(ds, lines, k)
  }

  lemma ParseGivesClass(ds: seq<Display>, lines: seq<seq<string>>, k: nat)
    requires 0 < k < |lines| && !ReadsNull(ds, lines[0]) && OfTheirOrigin(ds)
    ensures GivesClassToNone(ParseDisplay(ds, lines[0]), lines[1..], k - 1) <==> GivesClassToNone(ds, lines, k)
  {
    var words, rest, after := lines[0], lines[1..], ParseDisplay(ds, lines[0]);
    assert forall j :: 0 < j < |lines| ==> lines[j] == rest[j - 1];
    if HasClass(lines[k]) {
      var name := lines[k][0];
      var f := FirstNamed(ds, name);
      ParseFinds(ds, words, name);
      hide HasClass, ParseDisplay, KnownType, ReadsNull, OfTheirOrigin;
      assert (exists j :: 0 <= j < k && NamesDisplay(lines[j], name))
        <==> NamesDisplay(words, name) || exists j :: 0 <= j < k - 1 && NamesDisplay(rest[j], name) by {
        if j :| 0 <= j < k - 1 && NamesDisplay(rest[j], name) {
          assert NamesDisplay(lines[j + 1], name);
        }
        if j :| 0 <= j < k && NamesDisplay(lines[j], name) {
          assert j > 0 ==> NamesDisplay(rest[j - 1], name);
        }
      }
      assert (forall j :: 0 <= j < k && NamesDisplay(lines[j], name) ==> !HasClass(lines[j]))
        <==> (NamesDisplay(words, name) ==> !HasClass(words))
             && forall j :: 0 <= j < k - 1 && NamesDisplay(rest[j], name) ==> !HasClass(rest[j]) by {
        if forall j :: 0 <= j < k && NamesDisplay(lines[j], name) ==> !HasClass(lines[j]) {
          forall j | 0 <= j < k - 1 && NamesDisplay(rest[j], name) ensures !HasClass(rest[j]) {
            assert rest[j] == lines[j + 1];
          }
        }
      }
    }
  }

  /** Where a name is found after a line, with which class and of which origin. */
  lemma ParseFinds(ds: seq<Display>, words: seq<string>, name: string)
    requires !ReadsNull(ds, words) && OfTheirOrigin(ds)
    ensures var after := ParseDisplay(ds, words); var f, g := FirstNamed(ds, name), FirstNamed(after, name);
            && (g < |after| <==> f < |ds| || NamesDisplay(words, name))
            && (g < |after| ==>
                  && after[g].cls == (if NamesDisplay(words, name) && HasClass(words) then ClassOf(words)
                                      else if f < |ds| then ds[f].cls else None)
                  && (after[g].displayType.origin == FromXdmcp <==> f < |ds| && ds[f].displayType.origin == FromXdmcp))
  {
    hide KnownType, HasClass;
    var after, f := ParseDisplay(ds, words), FirstNamed(ds, name);
    if |words| >= 2 {
      var i := FirstNamed(ds, words[0]);
      assert i < |ds| ==> ds[i] in ds && ds[i].argv.Some?;
      FirstIs(after, name, if i < |ds| then f else if words[0] == name then 0 else f + 1);
    }
  }

  lemma ParseKeepsOrigins(ds: seq<Display>, words: seq<string>)
    requires OfTheirOrigin(ds)
    ensures OfTheirOrigin(ParseDisplay(ds, words))
  {
    hide KnownType, HasClass;
    var after := ParseDisplay(ds, words);
    if |words| >= 2 {
      var i := FirstNamed(ds, words[0]);
      assert i < |ds| ==> ds[i] in ds && IsOfItsOrigin(after[i]);
      assert i == |ds| ==> IsOfItsOrigin(after[0]);
      forall d | d in after ensures IsOfItsOrigin(d) {
        var k :| 0 <= k < |after| && after[k] == d;
        assert k == (if i < |ds| then i else 0) || d in ds;
      }
    }
  }

  lemma FatalAfter(ds: seq<Display>, lines: seq<seq<string>>, k: nat)
    requires 0 < k < |lines| && !ReadsNull(ds, lines[0]) && OfTheirOrigin(ds)
    ensures IsFatal(ParseDisplay(ds, lines[0]), lines[1..], k - 1) <==> IsFatal(ds, lines, k)
  {
    ParseGivesClass(ds, lines, k);
    if |lines[k]| >= 2 {
      ParseFinds(ds, lines[0], lines[k][0]);
    }
    assert lines[1..][k - 1] == lines[k];
    hide GivesClassToNone, ParseDisplay, ReadsNull, OfTheirOrigin;
  }

  lemma FirstIsFatal(ds: seq<Display>, lines: seq<seq<string>>)
    requires lines != [] && OfTheirOrigin(ds)
    ensures ReadsNull(ds, lines[0]) <==> IsFatal(ds, lines, 0)
  {
    if |lines[0]| >= 2 {
      var i := FirstNamed(ds, lines[0][0]);
      assert i < |ds| ==> ds[i] in ds;
    }
  }

  /**
   The lines of the servers file are survived exactly when none of them names a display from XDMCP, and
   none gives a class to a display that has none.
   */
  lemma {:induction false} SurvivesExactly(ds: seq<Display>, lines: seq<seq<string>>)
    requires OfTheirOrigin(ds)
    ensures Survives(ds, lines) <==> forall k :: 0 <= k < |lines| ==> !IsFatal(ds, lines, k)
    decreases lines
  {
    if lines != [] {
      var mid, rest := ParseDisplay(ds, lines[0]), lines[1..];
      FirstIsFatal(ds, lines);
      if !ReadsNull(ds, lines[0]) {
        ParseKeepsOrigins(ds, lines[0]);
        SurvivesExactly(mid, rest);
        forall k | 0 < k < |lines| ensures IsFatal(mid, rest, k - 1) <==> IsFatal(ds, lines, k) {
          FatalAfter(ds, lines, k);
        }
        hide IsFatal, ReadsNull, ParseDisplay, OfTheirOrigin;
        if Survives(ds, lines) {
          forall k | 0 < k < |lines| ensures !IsFatal(ds, lines, k) {
            assert !IsFatal(mid, rest, k - 1);
          }
        } else {
          var k :| 0 <= k < |rest| && IsFatal(mid, rest, k);
          assert IsFatal(ds, lines, k + 1);
        }
      }
    }
  }

  lemma MarkingChangesNothing(ds: seq<Display>, lines: seq<seq<string>>, k: nat)
    requires k < |lines|
    ensures IsFatal(MarkAll(ds), lines, k) <==> IsFatal(ds, lines, k)
  {
    var marked := MarkAll(ds);
    if |lines[k]| >= 2 {
      FirstIs(marked, lines[k][0], FirstNamed(ds, lines[k][0]));
    }
    hide HasClass;
  }

  /** From any state a run can reach: the condition is on the displays as they are before the file is read. */
  lemma RereadSurvivesExactly(st: State, lines: seq<seq<string>>)
    requires Inv(st)
    ensures Reread(st, lines).alive <==> forall k :: 0 <= k < |lines| ==> !IsFatal(st.displays, lines, k)
  {
    var marked := MarkAll(st.displays);
    forall d | d in marked ensures IsOfItsOrigin(d) {
      var i :| 0 <= i < |marked| && marked[i] == d;
      assert Sound(st.displays[i], st.children);
    }
    SurvivesExactly(marked, lines);
    hide IsFatal, Survives, Inv, MarkAll;
    forall k | 0 <= k < |lines| ensures IsFatal(marked, lines, k) <==> IsFatal(st.displays, lines, k) {
      MarkingChangesNothing(st.displays, lines, k);
    }
  }

  /** Two lines are enough, from an empty list. */
  lemma TwoLinesSuffice()
    ensures !Survives([], [["x", "local"], ["x", "Class", "local"]])
  {
    var lines := [["x", "local"], ["x", "Class", "local"]];
    assert NamesDisplay(lines[0], "x") && !HasClass(lines[0]) && HasClass(lines[1]);
    assert GivesClassToNone([], lines, 1) && IsFatal([], lines, 1);
    SurvivesExactly([], lines);
  }
}
