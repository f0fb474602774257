/**
 The two lists of xdm/choose.c: clients whose last query was indirect, and the hosts that
 chooser users picked. The choice list is walked with expired records unlinked on the way.
 */
module Choices {
  import opened Options
  import opened Network

  datatype ChoiceRec = ChoiceRec(client: Client, choice: Bytes, time: int)

  // ---------------------------------------------------------------- the choice list

  /** The walk of `IndirectChoice`: the answer, and the list it leaves behind. */
  function Lookup(cs: seq<ChoiceRec>, c: Client, now: int, timeout: int): (Option<Bytes>, seq<ChoiceRec>) {
    if cs == [] then (None, [])
    else if now - cs[0].time > timeout then Lookup(cs[1..], c, now, timeout)
    else if cs[0].client == c then (Some(cs[0].choice), cs)
    else
      var (answer, rest) := Lookup(cs[1..], c, now, timeout);
      (answer, [cs[0]] + rest)
  }

  function Position(cs: seq<ChoiceRec>, c: Client): (i: nat)
    ensures i <= |cs|
    ensures i < |cs| ==> cs[i].client == c
    ensures forall j :: 0 <= j < i ==> cs[j].client != c
  {
    if cs == [] || cs[0].client == c then 0 else 1 + Position(cs[1..], c)
  }

  function Register(cs: seq<ChoiceRec>, c: Client, choice: Bytes, now: int): seq<ChoiceRec> {
    var i := Position(cs, c);
    if i == |cs| then [ChoiceRec(c, choice, now)] + cs
    else cs[i := ChoiceRec(c, choice, now)]
  }

  /** The answer and the list that a walk comes to which has got to `i` and left the records before it. */
  function WalkedTo(cs: seq<ChoiceRec>, i: nat, c: Client, now: int, timeout: int): (Option<Bytes>, seq<ChoiceRec>)
    requires i <= |cs|
  {
    var (answer, rest) := Lookup(cs[i..], c, now, timeout);
    (answer, cs[..i] + rest)
  }

  lemma WalkStarts(cs: seq<ChoiceRec>, c: Client, now: int, timeout: int)
    ensures WalkedTo(cs, 0, c, now, timeout) == Lookup(cs, c, now, timeout)
  {
    assert cs[0..] == cs && cs[..0] + Lookup(cs, c, now, timeout).1 == Lookup(cs, c, now, timeout).1;
  }

  lemma WalkOn(cs: seq<ChoiceRec>, i: nat, c: Client, now: int, timeout: int)
    requires i < |cs|
    ensures var r := WalkedTo(cs, i, c, now, timeout);
            if now - cs[i].time > timeout then r == WalkedTo(cs[..i] + cs[i + 1..], i, c, now, timeout)
            else if cs[i].client == c then r == (Some(cs[i].choice), cs)
            else r == WalkedTo(cs, i + 1, c, now, timeout)
  {
    var less, rest := cs[..i] + cs[i + 1..], Lookup(cs[i + 1..], c, now, timeout).1;
    assert cs[i..][1..] == cs[i + 1..] && cs[..i] + cs[i..] == cs;
    assert less[..i] == cs[..i] && less[i..] == cs[i + 1..];
    assert cs[..i] + ([cs[i]] + rest) == cs[..i + 1] + rest;
  }

  lemma WalkEnds(cs: seq<ChoiceRec>, c: Client, now: int, timeout: int)
    ensures WalkedTo(cs, |cs|, c, now, timeout) == (None, cs)
  {
    assert cs[..|cs|] + [] == cs;
  }

  class ChoiceList {
    var choices: seq<ChoiceRec>
    const timeout: int

    constructor (timeout: int)
      ensures choices == [] && this.timeout == timeout
    {
      choices := [];
      this.timeout := timeout;
    }

    method IndirectChoice(c: Client, now: int) returns (answer: Option<Bytes>)
      modifies this
      ensures (answer, choices) == Lookup(old(choices), c, now, timeout)
    {
      var i := 0;
      answer := None;
      WalkStarts(choices, c, now, timeout);
      hide WalkedTo;
      while i < |choices|
        invariant 0 <= i <= |choices|
        invariant WalkedTo(choices, i, c, now, timeout) == Lookup(old(choices), c, now, timeout)
        decreases |choices| - i
      {
        var rec := choices[i];
        WalkOn(choices, i, c, now, timeout);
        if now - rec.time > timeout {
          choices := choices[..i] + choices[i + 1..];
        } else if rec.client == c {
          return Some(rec.choice);
        } else {
          i := i + 1;
        }
      }
      WalkEnds(choices, c, now, timeout);
    }

    method RegisterIndirectChoice(c: Client, choice: Bytes, now: int)
      modifies this
      ensures choices == Register(old(choices), c, choice, now)
    {
      var i := 0;
      while i < |choices| && choices[i].client != c
        invariant 0 <= i <= |choices|
        invariant forall j :: 0 <= j < i ==> choices[j].client != c
      {
        i := i + 1;
      }
      assert i == Position(choices, c);
      if i == |choices| {
        choices := [ChoiceRec(c, choice, now)] + choices;
      } else {
        choices := choices[i := ChoiceRec(c, choice, now)];
      }
    }
  }

  // ------------------------------------------------- what the list means: a timestamped map

  datatype ListEvent = Registered(client: Client, choice: Bytes, time: int) | Asked(client: Client, time: int)

  /** The list after a history of registrations and lookups. */
  function ListAfter(h: seq<ListEvent>, timeout: int): seq<ChoiceRec> {
    if h == [] then []
    else
      var cs := ListAfter(h[..|h| - 1], timeout);
      match h[|h| - 1]
      case Registered(c, choice, t) => Register(cs, c, choice, t)
      case Asked(c, t) => Lookup(cs, c, t, timeout).1
  }

  /** The latest registration for a client. */
  function Latest(h: seq<ListEvent>, c: Client): Option<ChoiceRec> {
    if h == [] then None
    else
      var e := h[|h| - 1];
      if e.Registered? && e.client == c then Some(ChoiceRec(c, e.choice, e.time))
      else Latest(h[..|h| - 1], c)
  }

  function Current(h: seq<ListEvent>, c: Client, now: int, timeout: int): Option<Bytes> {
    match Latest(h, c)
    case None => None
    case Some(r) => if now - r.time > timeout then None else Some(r.choice)
  }

  predicate ClockNeverGoesBack(h: seq<ListEvent>) {
    forall i, j :: 0 <= i < j < |h| ==> h[i].time <= h[j].time
  }

  predicate KeysUnique(cs: seq<ChoiceRec>) {
    forall i, j :: 0 <= i < j < |cs| ==> cs[i].client != cs[j].client
  }

  /** The list holds latest registrations only, and lacks one only if it had expired by `now`. */
  ghost predicate Faithful(cs: seq<ChoiceRec>, h: seq<ListEvent>, now: int, timeout: int) {
    && KeysUnique(cs)
    && (forall r :: r in cs ==> Latest(h, r.client) == Some(r))
    && (forall c :: Latest(h, c).Some? && Latest(h, c).value !in cs ==> now - Latest(h, c).value.time > timeout)
  }

  lemma {:induction false} LookupWalk(cs: seq<ChoiceRec>, c: Client, now: int, timeout: int)
    requires KeysUnique(cs)
    ensures var (answer, rest) := Lookup(cs, c, now, timeout);
            && KeysUnique(rest)
            && (forall r :: r in rest ==> r in cs)
            && (forall r :: r in cs && r !in rest ==> now - r.time > timeout)
            && (forall r :: r in cs && r.client == c ==>
                  answer == if now - r.time > timeout then None else Some(r.choice))
            && ((forall r :: r in cs ==> r.client != c) ==> answer == None)
  {
    if cs != [] {
      LookupWalk(cs[1..], c, now, timeout);
      assert forall r :: r in cs <==> r == cs[0] || r in cs[1..];
      var (answer, rest) := Lookup(cs[1..], c, now, timeout);
      assert forall r :: r in cs[1..] ==> r.client != cs[0].client;
      assert forall r :: r in [cs[0]] + rest <==> r == cs[0] || r in rest;
    }
  }

  lemma {:induction false} RegisterKeeps(cs: seq<ChoiceRec>, c: Client, choice: Bytes, now: int)
    requires KeysUnique(cs)
    ensures var after := Register(cs, c, choice, now);
            && KeysUnique(after)
            && (forall r :: r in after <==> r == ChoiceRec(c, choice, now) || (r in cs && r.client != c))
  {
    var i := Position(cs, c);
    var after := Register(cs, c, choice, now);
    if i == |cs| {
      assert forall r :: r in after <==> r == after[0] || r in cs;
    } else {
      forall r | r in cs && r.client != c ensures r in after {
        var k :| 0 <= k < |cs| && cs[k] == r;
        assert after[k] == r;
      }
      assert after[i] == ChoiceRec(c, choice, now);
    }
  }

  lemma {:induction false} LatestIsForClient(h: seq<ListEvent>, c: Client)
    ensures Latest(h, c).Some? ==> Latest(h, c).value.client == c
  {
    if h != [] {
      LatestIsForClient(h[..|h| - 1], c);
    }
  }

  lemma {:induction false} ListStaysFaithful(h: seq<ListEvent>, now: int, timeout: int)
    requires ClockNeverGoesBack(h) && forall i :: 0 <= i < |h| ==> h[i].time <= now
    ensures Faithful(ListAfter(h, timeout), h, now, timeout)
  {
    if h != [] {
      var before, e := h[..|h| - 1], h[|h| - 1];
      var cs := ListAfter(before, timeout);
      ListStaysFaithful(before, e.time, timeout);
      match e {
        case Registered(c, choice, t) => RegisterKeeps(cs, c, choice, t);
        case Asked(c, t) => LookupWalk(cs, c, t, timeout);
      }
      forall x | Latest(h, x).Some? && Latest(h, x).value !in ListAfter(h, timeout)
        ensures now - Latest(h, x).value.time > timeout
      {
        LatestIsForClient(h, x);
        assert Latest(before, x) == Latest(h, x);
      }
    }
  }

  /**
   After any history with a clock that never goes back, a lookup answers c exactly when the
   client's latest registration chose c no more than `timeout` ago.
   */
  lemma LookupIsTimestampedMap(h: seq<ListEvent>, c: Client, now: int, timeout: int)
    requires ClockNeverGoesBack(h) && forall i :: 0 <= i < |h| ==> h[i].time <= now
    ensures Lookup(ListAfter(h, timeout), c, now, timeout).0 == Current(h, c, now, timeout)
    ensures KeysUnique(ListAfter(h, timeout))
  {
    ListStaysFaithful(h, now, timeout);
    LookupWalk(ListAfter(h, timeout), c, now, timeout);
    LatestIsForClient(h, c);
    if r :| r in ListAfter(h, timeout) && r.client == c {
      assert Latest(h, c) == Some(r);
    }
  }

  function WithoutLookups(h: seq<ListEvent>): (r: seq<ListEvent>)
    ensures forall e :: e in r ==> e in h
  {
    if h == [] then []
    else
      var before := WithoutLookups(h[..|h| - 1]);
      if h[|h| - 1].Asked? then before else before + [h[|h| - 1]]
  }

  lemma {:induction false} LookupsLeaveNoTrace(h: seq<ListEvent>, c: Client)
    requires ClockNeverGoesBack(h)
    ensures ClockNeverGoesBack(WithoutLookups(h))
    ensures Latest(WithoutLookups(h), c) == Latest(h, c)
  {
    if h != [] {
      LookupsLeaveNoTrace(h[..|h| - 1], c);
      var r := WithoutLookups(h[..|h| - 1]);
      if !h[|h| - 1].Asked? {
        assert WithoutLookups(h)[..|r|] == r;
        forall i | 0 <= i < |r| ensures r[i].time <= h[|h| - 1].time {
          assert r[i] in h[..|h| - 1];
        }
      }
    }
  }

  /** Unlinking expired records during walks never changes a later answer. */
  lemma UnlinkingIsInvisible(h: seq<ListEvent>, c: Client, now: int, timeout: int)
    requires ClockNeverGoesBack(h) && forall i :: 0 <= i < |h| ==> h[i].time <= now
    ensures Lookup(ListAfter(h, timeout), c, now, timeout).0
         == Lookup(ListAfter(WithoutLookups(h), timeout), c, now, timeout).0
  {
    LookupsLeaveNoTrace(h, c);
    LookupIsTimestampedMap(h, c, now, timeout);
    var r := WithoutLookups(h);
    forall i | 0 <= i < |r| ensures r[i].time <= now {
      assert r[i] in h;
    }
    LookupIsTimestampedMap(r, c, now, timeout);
  }

  // ---------------------------------------------------------------- indirect clients

  function Drop(s: seq<Client>, c: Client): seq<Client> {
    if s == [] then [] else if s[0] == c then s[1..] else [s[0]] + Drop(s[1..], c)
  }

  predicate NoDuplicates(s: seq<Client>) {
    forall i, j :: 0 <= i < j < |s| ==> s[i] != s[j]
  }

  lemma {:induction false} DropRemovesExactly(s: seq<Client>, c: Client)
    requires NoDuplicates(s)
    ensures NoDuplicates(Drop(s, c))
    ensures forall x :: x in Drop(s, c) <==> x in s && x != c
  {
    if s != [] {
      DropRemovesExactly(s[1..], c);
      assert forall x :: x in s <==> x == s[0] || x in s[1..];
      assert s[0] !in s[1..];
      if s[0] != c {
        assert forall x :: x in [s[0]] + Drop(s[1..], c) <==> x == s[0] || x in Drop(s[1..], c);
      }
    }
  }

  function Remember(s: seq<Client>, c: Client): seq<Client> {
    if c in s then s else [c] + s
  }

  class IndirectUsers {
    var users: seq<Client>

    constructor ()
      ensures users == []
    {
      users := [];
    }

    method RememberIndirectClient(c: Client)
      modifies this
      ensures users == Remember(old(users), c)
    {
      for i := 0 to |users|
        invariant users == old(users) && c !in users[..i]
      {
        if users[i] == c {
          return;
        }
      }
      users := [c] + users;
    }

    method ForgetIndirectClient(c: Client)
      modifies this
      ensures users == Drop(old(users), c)
    {
      var i := 0;
      while i < |users| && users[i] != c
        invariant 0 <= i <= |users|
        invariant Drop(users, c) == users[..i] + Drop(users[i..], c)
      {
        assert users[i..][1..] == users[i + 1..];
        assert users[..i] + ([users[i]] + Drop(users[i + 1..], c)) == users[..i + 1] + Drop(users[i + 1..], c);
        i := i + 1;
      }
      if i < |users| {
        assert users[i..][1..] == users[i + 1..];
        users := users[..i] + users[i + 1..];
      }
    }

    method IsIndirectClient(c: Client) returns (b: bool)
      ensures b <==> c in users
    {
      b := false;
      for i := 0 to |users|
        invariant c !in users[..i]
      {
        if users[i] == c {
          return true;
        }
      }
    }
  }
}
