/**
 Merging a session's authorizations into a user's .Xauthority file and taking them out again
 (xdm/auth.c). Files are sequences of records; locking, linking and the backup file are not
 part of the model.
 */
module XAuthority {
  import opened Options
  import opened Network

  const MAGIC_COOKIE := "MIT-MAGIC-COOKIE-1"
  const XDM_AUTHORIZATION := "XDM-AUTHORIZATION-1"
  const KERBEROS := "MIT-KERBEROS-5"

  /** What `checkEntry` compares. */
  datatype Key = Key(family: int, address: Bytes, number: string, name: string)

  datatype Record = Record(key: Key, data: Bytes)

  datatype Address = Address(family: int, address: Bytes)

  /** `NoPeer`: a foreign display whose peer address is not known, for which nothing is written. */
  datatype Target = LocalServer | NoPeer | RemotePeer(peer: Address)

  datatype Session = Session(target: Target, interfaces: seq<Address>, hostname: Bytes, displayName: string)

  // ---------------------------------------------------------------- which records are written

  function LastColon(s: string): (i: Option<nat>)
    ensures i.Some? ==> i.value < |s| && s[i.value] == ':' && ':' !in s[i.value + 1..]
    ensures i == None ==> ':' !in s
  {
    if s == "" then None
    else if s[|s| - 1] == ':' then Some(|s| - 1)
    else
      var i := LastColon(s[..|s| - 1]);
      assert s == s[..|s| - 1] + [s[|s| - 1]];
      i
  }

  function UpToDot(s: string): string {
    if s == "" || s[0] == '.' then "" else [s[0]] + UpToDot(s[1..])
  }

  /** The display number in a display name, if it has one. */
  function NumberIn(name: string): Option<string> {
    var i := LastColon(name);
    if i == None then None else Some(UpToDot(name[i.value + 1..]))
  }

  predicate IsLoopback6(a: Bytes) {
    |a| == 16 && a[15] == 1 && forall i :: 0 <= i < 15 ==> a[i] == 0
  }

  /** An interface address that `DefineSelf` passes over. */
  predicate Skipped(a: Address, name: string) {
    || a.family == -1 || a.family == FAMILY_LOCAL
    || (a.family == FAMILY_INTERNET && |a.address| == 4 && a.address[0] == 127)
    || (a.family == FAMILY_INTERNET6 && (IsLoopback6(a.address) || name == XDM_AUTHORIZATION))
  }

  /** The addresses one authorization is written under. */
  function WrittenAddresses(s: Session, name: string): seq<Address> {
    match s.target
    case NoPeer => []
    case LocalServer => SelfAddresses(s.interfaces, name) + [Address(FAMILY_LOCAL, s.hostname)]
    case RemotePeer(p) =>
      if p.family != FAMILY_LOCAL then [p]
      else SelfAddresses(s.interfaces, name) + [Address(FAMILY_LOCAL, s.hostname)]
  }

  function SelfAddresses(interfaces: seq<Address>, name: string): seq<Address> {
    if interfaces == [] then []
    else if Skipped(interfaces[0], name) then SelfAddresses(interfaces[1..], name)
    else [interfaces[0]] + SelfAddresses(interfaces[1..], name)
  }

  /** One authorization of the display; family and address are filled in when it is written. */
  datatype Auth = Auth(number: string, name: string, data: Bytes)

  function NumberFor(a: Auth, displayName: string): string {
    var n := NumberIn(displayName);
    if n == None then a.number else n.value
  }

  function RecordsAt(addresses: seq<Address>, number: string, name: string, data: Bytes): (r: seq<Record>)
    ensures |r| == |addresses|
  {
    seq(|addresses|, i requires 0 <= i < |addresses| =>
      Record(Key(addresses[i].family, addresses[i].address, number, name), data))
  }

  function RecordsFor(a: Auth, s: Session): seq<Record> {
    RecordsAt(WrittenAddresses(s, a.name), NumberFor(a, s.displayName), a.name, a.data)
  }

  /** Kerberos caches are not written out. */
  function Silenced(a: Auth): Auth {
    if a.name == KERBEROS then a.(data := []) else a
  }

  /** The first magic cookie, or the length when there is none. */
  function CookieIndex(auths: seq<Auth>): (i: nat)
    ensures i <= |auths|
    ensures i < |auths| ==> auths[i].name == MAGIC_COOKIE
    ensures forall j :: 0 <= j < i ==> auths[j].name != MAGIC_COOKIE
  {
    if auths == [] || auths[0].name == MAGIC_COOKIE then 0 else 1 + CookieIndex(auths[1..])
  }

  /** All authorizations but the one at `skip`, from `i` on. */
  function RecordsFrom(auths: seq<Auth>, i: nat, skip: nat, s: Session): seq<Record>
    decreases |auths| - i
  {
    if i >= |auths| then []
    else if i == skip then RecordsFrom(auths, i + 1, skip, s)
    else RecordsFor(Silenced(auths[i]), s) + RecordsFrom(auths, i + 1, skip, s)
  }

  /** The magic cookie first, then the others in order. */
  function NewRecords(auths: seq<Auth>, s: Session): seq<Record> {
    var c := CookieIndex(auths);
    (if c < |auths| then RecordsFor(auths[c], s) else []) + RecordsFrom(auths, 0, c, s)
  }

  function KeysOf(records: seq<Record>): set<Key> {
    set i | 0 <= i < |records| :: records[i].key
  }

  lemma KeysOfFew(r: Record)
    ensures KeysOf([]) == {} && KeysOf([r]) == {r.key}
  {
    assert [r][0] == r;
  }

  lemma RecordsAtBoth(a: seq<Address>, b: seq<Address>, number: string, name: string, data: Bytes)
    ensures RecordsAt(a + b, number, name, data) == RecordsAt(a, number, name, data) + RecordsAt(b, number, name, data)
  {
  }

  lemma KeysOfBoth(a: seq<Record>, b: seq<Record>)
    ensures KeysOf(a + b) == KeysOf(a) + KeysOf(b)
  {
    forall k ensures k in KeysOf(a + b) <==> k in KeysOf(a) + KeysOf(b) {
      if k in KeysOf(a) {
        var i :| 0 <= i < |a| && a[i].key == k;
        assert (a + b)[i].key == k;
      }
      if k in KeysOf(b) {
        var i :| 0 <= i < |b| && b[i].key == k;
        assert (a + b)[|a| + i].key == k;
      }
    }
  }

  /** The records of a file with other keys than these. */
  function Kept(file: seq<Record>, keys: set<Key>): seq<Record> {
    if file == [] then []
    else if file[0].key in keys then Kept(file[1..], keys)
    else [file[0]] + Kept(file[1..], keys)
  }

  function Installed(file: seq<Record>, auths: seq<Auth>, s: Session): seq<Record> {
    NewRecords(auths, s) + Kept(file, KeysOf(NewRecords(auths, s)))
  }

  // ---------------------------------------------------------------- the code

  /** An Xauth record of the display. */
  class Xauth {
    var family: int
    var address: Bytes
    var number: string
    const name: string
    var data: Bytes

    constructor (name: string, number: string, data: Bytes)
      ensures this.name == name && this.number == number && this.data == data
    {
      this.name := name;
      this.number := number;
      this.data := data;
      family := 0;
      address := [];
    }

    function Value(): Auth
      reads this
    {
      Auth.Auth(number, name, data)
    }
  }

  predicate Distinct(auths: seq<Xauth>) {
    forall i, j :: 0 <= i < j < |auths| ==> auths[i] != auths[j]
  }

  function Values(auths: seq<Xauth>): (r: seq<Auth>)
    reads auths
    ensures |r| == |auths|
  {
    seq(|auths|, i requires 0 <= i < |auths| reads auths => auths[i].Value())
  }

  /** What writing one authorization leaves in it: only the number can have changed. */
  function Afterwards(a: Auth, s: Session): Auth {
    if s.target == NoPeer then a else a.(number := NumberFor(a, s.displayName))
  }

  /** The file being written, with the list of keys written so far and the `doWrite` switch. */
  class AuthWriter {
    var doWrite: bool
    var addrs: seq<Key>
    var file: seq<Record>

    ghost function Keys(): set<Key>
      reads `addrs
    {
      set i | 0 <= i < |addrs| :: addrs[i]
    }

    constructor (doWrite: bool)
      ensures this.doWrite == doWrite && Keys() == {} && file == []
    {
      this.doWrite := doWrite;
      addrs := [];
      file := [];
    }

    /** The keys of these records are noted, and the records written if `doWrite` is set. */
    twostate predicate Wrote(records: seq<Record>)
      reads this
    {
      && doWrite == old(doWrite)
      && Keys() == old(Keys()) + KeysOf(records)
      && (doWrite ==> file == old(file) + records)
      && (!doWrite ==> file == old(file))
    }

    method CheckEntry(k: Key) returns (found: bool)
      ensures found == (k in Keys())
    {
      found := false;
      for i := 0 to |addrs|
        invariant !found && forall j :: 0 <= j < i ==> addrs[j] != k
      {
        if addrs[i] == k {
          return true;
        }
      }
    }

    method SaveEntry(k: Key)
      modifies `addrs
      ensures Keys() == old(Keys()) + {k}
    {
      ghost var before := addrs;
      addrs := [k] + addrs;
      assert forall i :: 0 <= i < |before| ==> addrs[i + 1] == before[i];
      assert addrs[0] == k;
    }

    method WriteAddr(a: Address, auth: Xauth)
      modifies this, auth`family, auth`address
      ensures Wrote(RecordsAt([a], auth.number, auth.name, auth.data))
    {
      auth.family := a.family;
      auth.address := a.address;
      var r := Record(Key(auth.family, auth.address, auth.number, auth.name), auth.data);
      if doWrite {
        file := file + [r];
      }
      SaveEntry(r.key);
      KeysOfFew(r);
      assert RecordsAt([a], auth.number, auth.name, auth.data) == [r];
    }

    method DefineSelf(interfaces: seq<Address>, auth: Xauth)
      modifies this, auth`family, auth`address
      ensures Wrote(RecordsAt(SelfAddresses(interfaces, auth.name), auth.number, auth.name, auth.data))
    {
      KeysOfFew(Record(Key(0, [], "", ""), []));
      ghost var done: seq<Address> := [];
      ghost var start, keys, wanted := file, Keys(), SelfAddresses(interfaces, auth.name);
      ghost var records := RecordsAt(done, auth.number, auth.name, auth.data);
      assert records == [] && start + [] == start;
      hide KeysOf, Keys, RecordsAt, Skipped;
      for i := 0 to |interfaces|
        invariant wanted == done + SelfAddresses(interfaces[i..], auth.name)
        invariant records == RecordsAt(done, auth.number, auth.name, auth.data)
        invariant Keys() == keys + KeysOf(records) && doWrite == old(doWrite)
        invariant file == if doWrite then start + records else start
      {
        assert interfaces[i..][1..] == interfaces[i + 1..];
        if !Skipped(interfaces[i], auth.name) {
          WriteAddr(interfaces[i], auth);
          ghost var one := RecordsAt([interfaces[i]], auth.number, auth.name, auth.data);
          RecordsAtBoth(done, [interfaces[i]], auth.number, auth.name, auth.data);
          KeysOfBoth(records, one);
          assert (start + records) + one == start + (records + one);
          done, records := done + [interfaces[i]], records + one;
        }
      }
      assert done + [] == done;
    }

    method WriteLocalAuth(s: Session, auth: Xauth)
      modifies this, auth`family, auth`address, auth`number
      ensures auth.number == NumberFor(old(auth.Value()), s.displayName)
      ensures Wrote(RecordsAt(SelfAddresses(s.interfaces, auth.name) + [Address(FAMILY_LOCAL, s.hostname)],
                              auth.number, auth.name, auth.data))
    {
      hide KeysOf, Keys;
      SetAuthNumber(auth, s.displayName);
      DefineSelf(s.interfaces, auth);
      ghost var first := RecordsAt(SelfAddresses(s.interfaces, auth.name), auth.number, auth.name, auth.data);
      ghost var last := RecordsAt([Address(FAMILY_LOCAL, s.hostname)], auth.number, auth.name, auth.data);
      WriteAddr(Address(FAMILY_LOCAL, s.hostname), auth);
      KeysOfBoth(first, last);
      assert RecordsAt(SelfAddresses(s.interfaces, auth.name) + [Address(FAMILY_LOCAL, s.hostname)],
                       auth.number, auth.name, auth.data) == first + last;
    }

    method SetAuthNumber(auth: Xauth, displayName: string)
      modifies auth`number
      ensures auth.number == NumberFor(old(auth.Value()), displayName)
    {
      var n := NumberIn(displayName);
      if n.Some? {
        auth.number := n.value;
      }
    }

    /** `writeLocalAuth` or `writeRemoteAuth`, as the display is local or foreign. */
    method WriteAuth(s: Session, auth: Xauth)
      modifies this, auth`family, auth`address, auth`number
      ensures auth.Value() == Afterwards(old(auth.Value()), s)
      ensures Wrote(RecordsFor(old(auth.Value()), s))
    {
      hide KeysOf, Keys;
      KeysOfFew(Record(Key(0, [], "", ""), []));
      match s.target {
        case LocalServer => WriteLocalAuth(s, auth);
        case NoPeer =>
        case RemotePeer(p) =>
          if p.family != FAMILY_LOCAL {
            SetAuthNumber(auth, s.displayName);
            WriteAddr(p, auth);
          } else {
            WriteLocalAuth(s, auth);
          }
      }
    }

    /** Kerberos data is set aside while the authorization is written. */
    method WriteSilenced(s: Session, auth: Xauth)
      modifies this, auth
      ensures auth.Value() == Afterwards(old(auth.Value()), s)
      ensures Wrote(RecordsFor(Silenced(old(auth.Value())), s))
    {
      hide KeysOf, RecordsFor, Keys;
      var data := auth.data;
      if auth.name == KERBEROS {
        auth.data := [];
      }
      assert auth.Value() == Silenced(old(auth.Value()));
      WriteAuth(s, auth);
      auth.data := data;
    }

    /** All authorizations but the one at `skip`, Kerberos ones without their data. */
    method WriteOthers(s: Session, auths: seq<Xauth>, skip: nat)
      requires Distinct(auths)
      modifies this, auths
      ensures Wrote(RecordsFrom(old(Values(auths)), 0, skip, s))
      ensures forall j :: 0 <= j < |auths| && j != skip ==> auths[j].Value() == Afterwards(old(auths[j].Value()), s)
      ensures skip < |auths| ==> auths[skip].Value() == old(auths[skip].Value())
    {
      hide KeysOf, RecordsFor, Keys, Afterwards, Silenced, NumberFor;
      ghost var values := Values(auths);
      ghost var done: seq<Record> := [];
      KeysOfFew(Record(Key(0, [], "", ""), []));
      for i := 0 to |auths|
        invariant RecordsFrom(values, 0, skip, s) == done + RecordsFrom(values, i, skip, s)
        invariant Wrote(done)
        invariant forall j :: 0 <= j < |auths| ==>
                    auths[j].Value() == if j < i && j != skip then Afterwards(values[j], s) else values[j]
      {
        if i != skip {
          ghost var records := RecordsFor(Silenced(values[i]), s);
          WriteSilenced(s, auths[i]);
          KeysOfBoth(done, records);
          done := done + records;
        }
      }
      assert done + [] == done;
    }

    /** All authorizations, in order and with their data. */
    method WriteEach(s: Session, auths: seq<Xauth>)
      requires Distinct(auths)
      modifies this, auths
      ensures Wrote(AllRecords(old(Values(auths)), 0, s))
    {
      hide KeysOf, RecordsFor, Keys;
      ghost var values := Values(auths);
      ghost var done: seq<Record> := [];
      KeysOfFew(Record(Key(0, [], "", ""), []));
      for i := 0 to |auths|
        invariant AllRecords(values, 0, s) == done + AllRecords(values, i, s)
        invariant Wrote(done)
        invariant forall j :: i <= j < |auths| ==> auths[j].Value() == values[j]
      {
        ghost var records := RecordsFor(values[i], s);
        WriteAuth(s, auths[i]);
        KeysOfBoth(done, records);
        done := done + records;
      }
      assert done + [] == done;
    }

    /** Records of the old file follow, unless their key has been written. */
    method CopyRest(oldFile: seq<Record>)
      requires doWrite
      modifies `file
      ensures file == old(file) + Kept(oldFile, Keys())
    {
      hide Keys;
      ghost var keys := Keys();
      ghost var copied: seq<Record> := [];
      for i := 0 to |oldFile|
        invariant Keys() == keys && file == old(file) + copied
        invariant Kept(oldFile, keys) == copied + Kept(oldFile[i..], keys)
      {
        ghost var rest := Kept(oldFile[i + 1..], keys);
        assert oldFile[i..][1..] == oldFile[i + 1..];
        assert copied + ([oldFile[i]] + rest) == (copied + [oldFile[i]]) + rest;
        var found := CheckEntry(oldFile[i].key);
        if !found {
          file := file + [oldFile[i]];
          copied := copied + [oldFile[i]];
        }
      }
      assert copied + [] == copied;
    }
  }

  method FindCookie(auths: seq<Xauth>) returns (c: nat)
    ensures c == CookieIndex(Values(auths))
  {
    ghost var values := Values(auths);
    c := 0;
    while c < |auths| && auths[c].name != MAGIC_COOKIE
      invariant c <= |auths| && forall j :: 0 <= j < c ==> values[j].name != MAGIC_COOKIE
    {
      c := c + 1;
    }
    CookieIndexIs(values, c);
  }

  lemma {:induction false} CookieIndexIs(auths: seq<Auth>, c: nat)
    requires c <= |auths| && (c < |auths| ==> auths[c].name == MAGIC_COOKIE)
    requires forall j :: 0 <= j < c ==> auths[j].name != MAGIC_COOKIE
    ensures c == CookieIndex(auths)
  {
  }

  method SetUserAuthorization(oldFile: seq<Record>, auths: seq<Xauth>, s: Session) returns (newFile: seq<Record>)
    requires Distinct(auths)
    modifies auths
    ensures newFile == Installed(oldFile, old(Values(auths)), s)
    ensures forall i :: 0 <= i < |auths| ==> auths[i].Value() == Afterwards(old(auths[i].Value()), s)
  {
    hide KeysOf, RecordsFor, AuthWriter.Keys;
    ghost var values := Values(auths);
    KeysOfFew(Record(Key(0, [], "", ""), []));
    var w := new AuthWriter(true);
    var c := FindCookie(auths);
    ghost var first := if c < |auths| then RecordsFor(values[c], s) else [];
    if c < |auths| {
      w.WriteAuth(s, auths[c]);
    }
    assert w.Keys() == KeysOf(first) && w.file == first;
    ghost var second := RecordsFrom(Values(auths), 0, c, s);
    SkippedDoesNotMatter(values, Values(auths), 0, c, s);
    w.WriteOthers(s, auths, c);
    KeysOfBoth(first, second);
    assert NewRecords(values, s) == first + second;
    w.CopyRest(oldFile);
    newFile := w.file;
  }

  lemma {:induction false} SkippedDoesNotMatter(a: seq<Auth>, b: seq<Auth>, i: nat, skip: nat, s: Session)
    requires |a| == |b| && forall j :: 0 <= j < |a| && j != skip ==> a[j] == b[j]
    ensures RecordsFrom(a, i, skip, s) == RecordsFrom(b, i, skip, s)
    decreases |a| - i
  {
    hide RecordsFor;
    if i < |a| {
      SkippedDoesNotMatter(a, b, i + 1, skip, s);
    }
  }

  /** The keys are noted with writing switched off, then the other records are copied. */
  method RemoveUserAuthorization(oldFile: seq<Record>, auths: seq<Xauth>, s: Session) returns (newFile: seq<Record>)
    requires Distinct(auths)
    modifies auths
    ensures newFile == Removed(oldFile, old(Values(auths)), s)
  {
    hide KeysOf, AuthWriter.Keys;
    ghost var records := AllRecords(Values(auths), 0, s);
    var w := new AuthWriter(false);
    w.WriteEach(s, auths);
    assert w.Keys() == KeysOf(records);
    w.doWrite := true;
    assert w.Keys() == KeysOf(records) && w.file == [];
    w.CopyRest(oldFile);
    assert [] + Kept(oldFile, KeysOf(records)) == Kept(oldFile, KeysOf(records));
    newFile := w.file;
  }

  function AllRecords(auths: seq<Auth>, i: nat, s: Session): seq<Record>
    decreases |auths| - i
  {
    if i >= |auths| then [] else RecordsFor(auths[i], s) + AllRecords(auths, i + 1, s)
  }

  function Removed(file: seq<Record>, auths: seq<Auth>, s: Session): seq<Record> {
    Kept(file, KeysOf(AllRecords(auths, 0, s)))
  }

  // ---------------------------------------------------------------- what it amounts to

  lemma {:induction false} KeptTwice(file: seq<Record>, keys: set<Key>)
    ensures Kept(Kept(file, keys), keys) == Kept(file, keys)
  {
    if file != [] {
      KeptTwice(file[1..], keys);
      var rest := Kept(file[1..], keys);
      if file[0].key !in keys {
        var all := [file[0]] + rest;
        assert all[1..] == rest;
        assert Kept(file, keys) == all && Kept(all, keys) == [file[0]] + Kept(rest, keys);
      }
    }
  }

  lemma {:induction false} KeptOfBoth(a: seq<Record>, b: seq<Record>, keys: set<Key>)
    ensures Kept(a + b, keys) == Kept(a, keys) + Kept(b, keys)
  {
    if a == [] {
      assert a + b == b;
    } else {
      KeptOfBoth(a[1..], b, keys);
      assert (a + b)[0] == a[0] && (a + b)[1..] == a[1..] + b;
      var rest, others := Kept(a[1..], keys), Kept(b, keys);
      assert [a[0]] + (rest + others) == ([a[0]] + rest) + others;
    }
  }

  lemma {:induction false} NoneKept(file: seq<Record>, keys: set<Key>)
    requires KeysOf(file) <= keys
    ensures Kept(file, keys) == []
  {
    if file != [] {
      assert file == [file[0]] + file[1..];
      KeysOfBoth([file[0]], file[1..]);
      assert file[0].key in KeysOf(file);
      NoneKept(file[1..], keys);
    }
  }

  lemma {:induction false} AllKept(file: seq<Record>, keys: set<Key>)
    requires KeysOf(file) !! keys
    ensures Kept(file, keys) == file
  {
    if file != [] {
      assert file == [file[0]] + file[1..];
      KeysOfBoth([file[0]], file[1..]);
      assert file[0].key in KeysOf(file);
      AllKept(file[1..], keys);
    }
  }

  /** Running the installation changes nothing in what the authorizations will write next time. */
  lemma {:induction false} NewRecordsAreStable(a: seq<Auth>, b: seq<Auth>, s: Session)
    requires |a| == |b| && forall i :: 0 <= i < |a| ==> b[i] == Afterwards(a[i], s)
    ensures NewRecords(a, s) == NewRecords(b, s)
  {
    var c, d := CookieIndex(a), CookieIndex(b);
    assert c == d;
    OthersAreStable(a, b, 0, c, s);
  }

  lemma {:induction false} OthersAreStable(a: seq<Auth>, b: seq<Auth>, i: nat, skip: nat, s: Session)
    requires |a| == |b| && forall i :: 0 <= i < |a| ==> b[i] == Afterwards(a[i], s)
    ensures RecordsFrom(a, i, skip, s) == RecordsFrom(b, i, skip, s)
    decreases |a| - i
  {
    if i < |a| {
      OthersAreStable(a, b, i + 1, skip, s);
      assert RecordsFor(Silenced(a[i]), s) == RecordsFor(Silenced(b[i]), s);
    }
  }

  /** Installing twice, with the same authorizations and addresses, is installing once. */
  lemma InstallingTwiceIsOnce(file: seq<Record>, auths: seq<Auth>, after: seq<Auth>, s: Session)
    requires |after| == |auths| && forall i :: 0 <= i < |auths| ==> after[i] == Afterwards(auths[i], s)
    ensures Installed(Installed(file, auths, s), after, s) == Installed(file, auths, s)
  {
    hide Kept, KeysOf, NewRecords, Afterwards;
    NewRecordsAreStable(auths, after, s);
    var added := NewRecords(auths, s);
    var keys := KeysOf(added);
    KeptOfBoth(added, Kept(file, keys), keys);
    NoneKept(added, keys);
    KeptTwice(file, keys);
  }

  lemma {:induction false} RecordsOfCookieAndOthers(auths: seq<Auth>, i: nat, skip: nat, s: Session)
    ensures KeysOf(AllRecords(auths, i, s))
         == (if i <= skip < |auths| then KeysOf(RecordsFor(auths[skip], s)) else {})
            + KeysOf(RecordsFrom(auths, i, skip, s))
    decreases |auths| - i
  {
    hide KeysOf, RecordsFor;
    KeysOfFew(Record(Key(0, [], "", ""), []));
    if i < |auths| {
      RecordsOfCookieAndOthers(auths, i + 1, skip, s);
      KeysOfBoth(RecordsFor(auths[i], s), AllRecords(auths, i + 1, s));
      SilencedKeys(auths[i], s);
      KeysOfBoth(RecordsFor(Silenced(auths[i]), s), RecordsFrom(auths, i + 1, skip, s));
    }
  }

  lemma SilencedKeys(a: Auth, s: Session)
    ensures KeysOf(RecordsFor(Silenced(a), s)) == KeysOf(RecordsFor(a, s))
  {
    var x, y := RecordsFor(a, s), RecordsFor(Silenced(a), s);
    assert forall i :: 0 <= i < |x| ==> x[i].key == y[i].key;
  }

  lemma RemovalCoversInstallation(auths: seq<Auth>, after: seq<Auth>, s: Session)
    requires |after| == |auths| && forall i :: 0 <= i < |auths| ==> after[i] == Afterwards(auths[i], s)
    ensures KeysOf(AllRecords(after, 0, s)) == KeysOf(NewRecords(auths, s))
  {
    NewRecordsAreStable(auths, after, s);
    var c := CookieIndex(after);
    RecordsOfCookieAndOthers(after, 0, c, s);
    KeysOfBoth(if c < |after| then RecordsFor(after[c], s) else [], RecordsFrom(after, 0, c, s));
  }

  /**
   Removing after installing gives back the old file without the keys that were written, and the
   old file itself exactly when it held none of them.
   */
  lemma RemovingAfterInstalling(file: seq<Record>, auths: seq<Auth>, after: seq<Auth>, s: Session)
    requires |after| == |auths| && forall i :: 0 <= i < |auths| ==> after[i] == Afterwards(auths[i], s)
    ensures var keys := KeysOf(NewRecords(auths, s));
            && Removed(Installed(file, auths, s), after, s) == Kept(file, keys)
            && (Kept(file, keys) == file <==> KeysOf(file) !! keys)
  {
    var added := NewRecords(auths, s);
    var keys := KeysOf(added);
    RemovalCoversInstallation(auths, after, s);
    KeptOfBoth(added, Kept(file, keys), keys);
    NoneKept(added, keys);
    KeptTwice(file, keys);
    KeptHaveOtherKeys(file, keys);
    if KeysOf(file) !! keys {
      AllKept(file, keys);
    }
  }

  lemma {:induction false} KeptHaveOtherKeys(file: seq<Record>, keys: set<Key>)
    ensures KeysOf(Kept(file, keys)) == KeysOf(file) - keys
  {
    hide KeysOf;
    KeysOfFew(Record(Key(0, [], "", ""), []));
    if file != [] {
      KeptHaveOtherKeys(file[1..], keys);
      assert file == [file[0]] + file[1..];
      KeysOfFew(file[0]);
      KeysOfBoth([file[0]], file[1..]);
      KeysOfBoth([file[0]], Kept(file[1..], keys));
    }
  }

  // ---------------------------------------------------------------- which records there are

  /** An authorization is written under this address: the peer's, or those of this host that others could use. */
  predicate IsWrittenUnder(s: Session, name: string, a: Address) {
    match s.target
    case NoPeer => false
    case LocalServer => IsOwnAddress(s, name, a)
    case RemotePeer(p) => if p.family != FAMILY_LOCAL then a == p else IsOwnAddress(s, name, a)
  }

  /** The host's name, or an interface other than the loopback; no IPv6 address for XDM-AUTHORIZATION-1. */
  predicate IsOwnAddress(s: Session, name: string, a: Address) {
    || a == Address(FAMILY_LOCAL, s.hostname)
    || (&& a in s.interfaces && a.family != -1 && a.family != FAMILY_LOCAL
        && (a.family == FAMILY_INTERNET ==> |a.address| != 4 || a.address[0] != 127)
        && (a.family == FAMILY_INTERNET6 ==> name != XDM_AUTHORIZATION && !IsLoopback6(a.address)))
  }

  lemma {:induction false} SelfAddressesExactly(interfaces: seq<Address>, name: string, a: Address)
    ensures a in SelfAddresses(interfaces, name) <==> a in interfaces && !Skipped(a, name)
  {
    hide Skipped;
    if interfaces != [] {
      assert a in interfaces <==> a == interfaces[0] || a in interfaces[1..];
      SelfAddressesExactly(interfaces[1..], name, a);
    }
  }

  lemma WrittenExactly(s: Session, name: string, a: Address)
    ensures a in WrittenAddresses(s, name) <==> IsWrittenUnder(s, name, a)
  {
    hide IsLoopback6;
    SelfAddressesExactly(s.interfaces, name, a);
  }

  /** This is a record of the authorization: the display's number, the protocol, and its data unless that is a Kerberos cache. */
  predicate IsRecordOf(s: Session, a: Auth, r: Record) {
    && HasKeyOf(s, a, r.key)
    && r.data == if a.name == KERBEROS then [] else a.data
  }

  predicate HasKeyOf(s: Session, a: Auth, k: Key) {
    k.name == a.name && k.number == (if NumberIn(s.displayName) == None then a.number else NumberIn(s.displayName).value)
    && IsWrittenUnder(s, a.name, Address(k.family, k.address))
  }

  lemma RecordsForExactly(a: Auth, s: Session, r: Record)
    ensures r in RecordsFor(Silenced(a), s) <==> IsRecordOf(s, a, r)
  {
    var at, rs := WrittenAddresses(s, a.name), RecordsFor(Silenced(a), s);
    var here := Address(r.key.family, r.key.address);
    WrittenExactly(s, a.name, here);
    hide IsWrittenUnder, WrittenAddresses, NumberIn;
    if here in at && IsRecordOf(s, a, r) {
      var i :| 0 <= i < |at| && at[i] == here;
      assert rs[i] == r;
    }
    if r in rs {
      var i :| 0 <= i < |rs| && rs[i] == r;
      assert at[i] == here;
    }
  }

  predicate IsNew(auths: seq<Auth>, s: Session, r: Record) {
    exists i :: 0 <= i < |auths| && IsRecordOf(s, auths[i], r)
  }

  predicate IsNewKey(auths: seq<Auth>, s: Session, k: Key) {
    exists i :: 0 <= i < |auths| && HasKeyOf(s, auths[i], k)
  }

  lemma {:induction false} OthersExactly(auths: seq<Auth>, i: nat, skip: nat, s: Session, r: Record)
    ensures r in RecordsFrom(auths, i, skip, s) <==> exists j :: i <= j < |auths| && j != skip && IsRecordOf(s, auths[j], r)
    decreases |auths| - i
  {
    hide IsRecordOf, RecordsFor, Silenced;
    if i < |auths| {
      OthersExactly(auths, i + 1, skip, s, r);
      RecordsForExactly(auths[i], s, r);
    }
  }

  lemma NewRecordsExactly(auths: seq<Auth>, s: Session, r: Record)
    ensures r in NewRecords(auths, s) <==> IsNew(auths, s, r)
  {
    hide IsRecordOf, RecordsFor;
    var c := CookieIndex(auths);
    OthersExactly(auths, 0, c, s, r);
    if c < |auths| {
      RecordsForExactly(auths[c], s, r);
      assert Silenced(auths[c]) == auths[c];
    }
  }

  lemma NewKeysExactly(auths: seq<Auth>, s: Session, k: Key)
    ensures k in KeysOf(NewRecords(auths, s)) <==> IsNewKey(auths, s, k)
  {
    hide NewRecords, HasKeyOf;
    var rs := NewRecords(auths, s);
    if k in KeysOf(rs) {
      var i :| 0 <= i < |rs| && rs[i].key == k;
      NewRecordsExactly(auths, s, rs[i]);
    }
    if i :| 0 <= i < |auths| && HasKeyOf(s, auths[i], k) {
      var r := Record(k, if auths[i].name == KERBEROS then [] else auths[i].data);
      assert IsRecordOf(s, auths[i], r);
      NewRecordsExactly(auths, s, r);
      var j :| 0 <= j < |rs| && rs[j] == r;
      assert rs[j].key == k;
    }
  }

  lemma {:induction false} KeptExactly(file: seq<Record>, keys: set<Key>, r: Record)
    ensures r in Kept(file, keys) <==> r in file && r.key !in keys
  {
    if file != [] {
      assert r in file <==> r == file[0] || r in file[1..];
      KeptExactly(file[1..], keys, r);
    }
  }

  /**
   The file holds, for every authorization and every address it is for, one record with its data, or
   with none for Kerberos; and of the old file the records no authorization has the key of. It holds nothing else.
   */
  lemma InstalledExactly(file: seq<Record>, auths: seq<Auth>, s: Session, r: Record)
    ensures r in Installed(file, auths, s) <==> IsNew(auths, s, r) || (r in file && !IsNewKey(auths, s, r.key))
  {
    hide IsNew, IsNewKey, NewRecords, Kept, KeysOf;
    NewRecordsExactly(auths, s, r);
    NewKeysExactly(auths, s, r.key);
    KeptExactly(file, KeysOf(NewRecords(auths, s)), r);
  }

  /** Installing leaves in an authorization the number its records were written with, and changes nothing else in it. */
  lemma NumberIsLeft(a: Auth, s: Session, r: Record)
    requires IsRecordOf(s, a, r)
    ensures Afterwards(a, s) == a.(number := r.key.number)
  {
  }

  /** A magic cookie is what a client finds first, whatever else there is and in whatever order. */
  lemma CookieComesFirst(file: seq<Record>, auths: seq<Auth>, s: Session, i: nat)
    requires i < |auths| && auths[i].name == MAGIC_COOKIE && forall j :: 0 <= j < i ==> auths[j].name != MAGIC_COOKIE
    requires exists a :: IsWrittenUnder(s, MAGIC_COOKIE, a)
    ensures var after := Installed(file, auths, s); after != [] && IsRecordOf(s, auths[i], after[0])
  {
    var a :| IsWrittenUnder(s, MAGIC_COOKIE, a);
    WrittenExactly(s, MAGIC_COOKIE, a);
    CookieIndexIs(auths, i);
    var first := RecordsFor(auths[i], s);
    assert first != [] && Installed(file, auths, s)[0] == first[0] && first[0] in first;
    RecordsForExactly(auths[i], s, first[0]);
  }

  /** The number in a display name is what stands between the last colon and the next dot. */
  lemma NumberIsRead(host: string, number: string, screen: string)
    requires ':' !in number && '.' !in number && ':' !in screen
    ensures NumberIn(host + ":" + number) == NumberIn(host + ":" + (number + "." + screen)) == Some(number)
    ensures ':' !in host ==> NumberIn(host) == None
  {
    hide LastColon, UpToDot;
    LastColonIs(host, number);
    LastColonIs(host, number + "." + screen);
    UpToDotIs(number, "");
    UpToDotIs(number, "." + screen);
    assert number + "" == number && number + ("." + screen) == number + "." + screen;
  }

  lemma {:induction false} LastColonIs(host: string, rest: string)
    requires ':' !in rest
    ensures LastColon(host + ":" + rest) == Some(|host|) && (host + ":" + rest)[|host| + 1..] == rest
    decreases |rest|
  {
    var s := host + ":" + rest;
    assert s[|host| + 1..] == rest;
    if rest != "" {
      assert s[..|s| - 1] == host + ":" + rest[..|rest| - 1] && s[|s| - 1] == rest[|rest| - 1];
      LastColonIs(host, rest[..|rest| - 1]);
    }
  }

  lemma {:induction false} UpToDotIs(number: string, rest: string)
    requires '.' !in number && (rest == "" || rest[0] == '.')
    ensures UpToDot(number + rest) == number
  {
    if number != "" {
      assert (number + rest)[1..] == number[1..] + rest;
      UpToDotIs(number[1..], rest);
    } else {
      assert number + rest == rest;
    }
  }
}
