/**
 XDM-AUTHENTICATION-1 and XDM-AUTHORIZATION-1 (xdm/xdmauth.c, xdm/auth.c:205-241): the manager
 proves that it knows the display's key, and hands it a session key wrapped in that key.
 */
module XdmAuth {
  import opened Options
  import opened Network

  // ---------------------------------------------------------------- the cipher

  /** A block cipher on eight bytes, keyed with eight bytes. */
  datatype Cipher = Cipher(wrap: (Bytes, Bytes) -> Bytes, unwrap: (Bytes, Bytes) -> Bytes)

  ghost predicate BlockSized(c: Cipher) {
    forall k, x | |x| == 8 :: |c.wrap(k, x)| == |c.unwrap(k, x)| == 8
  }

  ghost predicate Inverse(c: Cipher) {
    BlockSized(c) && forall k, x | |x| == 8 :: c.unwrap(k, c.wrap(k, x)) == x
  }

  // ---------------------------------------------------------------- adding one to a key

  /** XdmcpIncrementKey: bytes from the last one up, carrying past every byte that wraps. */
  function Increment(x: Bytes): (r: Bytes)
    ensures |r| == |x|
  {
    if x == [] then []
    else if x[|x| - 1] == 255 then Increment(x[..|x| - 1]) + [0]
    else x[..|x| - 1] + [x[|x| - 1] + 1]
  }

  function Value(x: Bytes): nat {
    if x == [] then 0 else Value(x[..|x| - 1]) * 256 + x[|x| - 1] as int
  }

  function Size(n: nat): nat {
    if n == 0 then 1 else Size(n - 1) * 256
  }

  /** It is addition of one to a big-endian number, wrapping around. */
  lemma {:induction false} IncrementAddsOne(x: Bytes)
    ensures Value(x) < Size(|x|)
    ensures Value(Increment(x)) == if Value(x) + 1 == Size(|x|) then 0 else Value(x) + 1
  {
    if x != [] {
      var init, r := x[..|x| - 1], Increment(x);
      IncrementAddsOne(init);
      assert r[..|r| - 1] == if x[|x| - 1] == 255 then Increment(init) else init;
    }
  }

  function Up(b: byte): byte {
    if b == 255 then 0 else b + 1
  }

  /** The carry stops at the last byte that does not wrap, or has gone through them all. */
  lemma {:induction false} IncrementIs(x: Bytes, r: Bytes, i: nat)
    requires i < |x| == |r| && r[i] == Up(x[i]) && (i == 0 || r[i] != 0)
    requires forall j :: 0 <= j < i ==> r[j] == x[j]
    requires forall j :: i < j < |x| ==> x[j] == 255 && r[j] == 0
    ensures Increment(x) == r
  {
    var n := |x| - 1;
    if i < n {
      IncrementIs(x[..n], r[..n], i);
      assert r == r[..n] + [0];
    } else if x[n] == 255 {
      assert x[..n] == [] && r == [0];
    } else {
      assert r == x[..n] + [x[n] + 1];
    }
  }

  method IncrementKey(a: array<byte>)
    requires a.Length > 0
    modifies a
    ensures a[..] == Increment(old(a[..]))
  {
    ghost var was := a[..];
    var i := a.Length - 1;
    a[i] := Up(a[i]);
    while a[i] == 0 && i > 0
      invariant 0 <= i < a.Length && a[i] == Up(was[i])
      invariant forall j :: 0 <= j < i ==> a[j] == was[j]
      invariant forall j :: i < j < a.Length ==> was[j] == 255 && a[j] == 0
    {
      i := i - 1;
      a[i] := Up(a[i]);
    }
    IncrementIs(was, a[..], i);
  }

  // ---------------------------------------------------------------- the keys file

  datatype KeyLine = KeyLine(id: Bytes, key: Bytes)

  function Digit(c: byte): Option<byte> {
    if '0' as int <= c as int <= '9' as int then Some(c - '0' as byte)
    else if 'a' as int <= c as int <= 'f' as int then Some(c - 'a' as byte + 10)
    else if 'A' as int <= c as int <= 'F' as int then Some(c - 'A' as byte + 10)
    else None
  }

  /** Pairs of hexadecimal digits, all of them. */
  function FromHex(s: Bytes): (r: Option<Bytes>)
    ensures r.Some? ==> |r.value| * 2 == |s|
  {
    if s == [] then Some([])
    else if |s| == 1 || Digit(s[0]) == None || Digit(s[1]) == None then None
    else
      var rest := FromHex(s[2..]);
      if rest == None then None
      else Some([((Digit(s[0]).value as int * 16 + Digit(s[1]).value as int) % 256) as byte] + rest.value)
  }

  function UpToNul(s: Bytes): Bytes {
    if s == [] || s[0] == 0 then [] else [s[0]] + UpToNul(s[1..])
  }

  const ZEROS: Bytes := [0, 0, 0, 0, 0, 0, 0, 0]

  /** A zero byte and seven bytes of the key, which is filled up with zeros after its end. */
  function Padded(key: Bytes): (r: Bytes)
    ensures |r| == 8 && r[0] == 0
  {
    var k := UpToNul(key);
    [0] + (k + ZEROS)[..7]
  }

  predicate IsHex(key: Bytes) {
    |key| >= 2 && key[0] == '0' as byte && (key[1] == 'x' as byte || key[1] == 'X' as byte)
  }

  function KeyOf(text: Bytes): (r: Option<Bytes>)
    ensures r.Some? ==> |r.value| == 8 && r.value[0] == 0
  {
    if !IsHex(text) then Some(Padded(text))
    else
      var k := FromHex(text[2..]);
      if k == None then None else Some(Padded(k.value))
  }

  /** The key of the first line for the display; a key that cannot be read ends the search. */
  function GetKey(keys: seq<KeyLine>, displayID: Bytes): (r: Option<Bytes>)
    ensures r.Some? ==> |r.value| == 8 && r.value[0] == 0
  {
    if keys == [] then None
    else if keys[0].id == displayID then KeyOf(keys[0].key)
    else GetKey(keys[1..], displayID)
  }

  function HexDigit(n: nat, upper: bool): byte
    requires n < 16
  {
    if n < 10 then ('0' as int + n) as byte else ((if upper then 'A' else 'a') as int + n - 10) as byte
  }

  /** A key as an administrator writes it. */
  function Hex(key: Bytes, upper: bool): (s: Bytes)
    ensures |s| == 2 * |key|
  {
    if key == [] then []
    else [HexDigit(key[0] as int / 16, upper), HexDigit(key[0] as int % 16, upper)] + Hex(key[1..], upper)
  }

  lemma {:induction false} HexIsRead(key: Bytes, upper: bool)
    ensures FromHex(Hex(key, upper)) == Some(key)
  {
    hide HexDigit, Digit;
    if key != [] {
      HexIsRead(key[1..], upper);
      assert Hex(key, upper)[2..] == Hex(key[1..], upper);
      ByteIsRead(key[0], upper);
      assert key == [key[0]] + key[1..];
    }
  }

  lemma ByteIsRead(b: byte, upper: bool)
    ensures var high, low := Digit(HexDigit(b as int / 16, upper)), Digit(HexDigit(b as int % 16, upper));
            high.Some? && low.Some? && ((high.value as int * 16 + low.value as int) % 256) as byte == b
  {
    hide HexDigit, Digit;
    var n := b as int;
    DigitIsRead(n / 16, upper);
    DigitIsRead(n % 16, upper);
    assert n == n / 16 * 16 + n % 16 && n % 256 == n;
  }

  lemma DigitIsRead(n: nat, upper: bool)
    requires n < 16
    ensures Digit(HexDigit(n, upper)) == Some(n as byte)
  {
  }

  predicate IsNul(b: byte) {
    b == 0
  }

  /** Seven bytes of the key behind a zero byte; what is missing, or follows a NUL, is zero. */
  predicate IsPadded(key: Bytes, r: Bytes) {
    |r| == 8 && r[0] == 0 && forall i :: 1 <= i < 8 ==> r[i] == KeyByte(key, i - 1)
  }

  function KeyByte(key: Bytes, j: nat): byte {
    if j < |key| && forall k :: 0 <= k <= j ==> !IsNul(key[k]) then key[j] else 0
  }

  lemma {:induction false} UpToNulAt(s: Bytes, j: nat)
    ensures j < |UpToNul(s)| <==> j < |s| && forall k :: 0 <= k <= j ==> !IsNul(s[k])
    ensures j < |UpToNul(s)| ==> UpToNul(s)[j] == s[j]
  {
    if s != [] && s[0] != 0 {
      if j > 0 {
        UpToNulAt(s[1..], j - 1);
        assert forall k :: 0 < k < |s| ==> s[k] == s[1..][k - 1];
        if forall k :: 0 <= k <= j - 1 && k < |s[1..]| ==> !IsNul(s[1..][k]) {
          forall k | 0 <= k <= j && k < |s| ensures !IsNul(s[k]) {
            assert k > 0 ==> !IsNul(s[1..][k - 1]);
          }
        }
        if j < |s| && forall k :: 0 <= k <= j ==> !IsNul(s[k]) {
          forall k | 0 <= k <= j - 1 ensures !IsNul(s[1..][k]) {
            assert !IsNul(s[k + 1]);
          }
        }
      }
    } else if s != [] {
      assert IsNul(s[0]);
    }
  }

  lemma PaddedExactly(key: Bytes)
    ensures IsPadded(key, Padded(key))
  {
    hide UpToNul, IsNul, KeyByte;
    var k := UpToNul(key);
    forall i | 1 <= i < 8 ensures Padded(key)[i] == KeyByte(key, i - 1) {
      KeyByteIs(key, i - 1);
    }
  }

  lemma KeyByteIs(key: Bytes, j: nat)
    requires j < 7
    ensures (UpToNul(key) + ZEROS)[j] == KeyByte(key, j)
  {
    UpToNulAt(key, j);
    hide UpToNul, IsNul;
  }

  /**
   A key can be written out, or in hexadecimal digits of either case behind 0x: of both the first seven
   bytes are used.
   */
  lemma KeyIsRead(key: Bytes, upper: bool)
    ensures var r := KeyOf(Ascii("0x") + Hex(key, upper)); r.Some? && IsPadded(key, r.value)
    ensures !IsHex(key) ==> var r := KeyOf(key); r.Some? && IsPadded(key, r.value)
  {
    var text := Ascii("0x") + Hex(key, upper);
    assert text[0] == '0' as byte && text[1] == 'x' as byte && text[2..] == Hex(key, upper);
    HexIsRead(key, upper);
    PaddedExactly(key);
  }

  /** The first line for a display counts, whatever further ones say. */
  lemma {:induction false} FirstLineCounts(keys: seq<KeyLine>, displayID: Bytes, i: nat)
    requires i < |keys| && keys[i].id == displayID && forall j :: 0 <= j < i ==> keys[j].id != displayID
    ensures GetKey(keys, displayID) == KeyOf(keys[i].key)
  {
    if i > 0 {
      FirstLineCounts(keys[1..], displayID, i - 1);
    }
  }

  lemma {:induction false} NoLineNoKey(keys: seq<KeyLine>, displayID: Bytes)
    requires forall j :: 0 <= j < |keys| ==> keys[j].id != displayID
    ensures GetKey(keys, displayID) == None
  {
    if keys != [] {
      NoLineNoKey(keys[1..], displayID);
    }
  }

  // ---------------------------------------------------------------- a proto-display's part

  /** The authentication fields of a proto-display; `rho` is a null pointer until the display authenticates. */
  datatype Credentials = Credentials(key: Bytes, rho: Option<Bytes>, fileAuth: Option<Auth>, xdmcpAuth: Option<Auth>)

  const NO_CREDENTIALS := Credentials(ZEROS, None, None, None)

  function Ascii(s: string): Bytes
    requires forall i :: 0 <= i < |s| ==> s[i] as int < 256
  {
    seq(|s|, i requires 0 <= i < |s| => s[i] as byte)
  }

  const XDM_AUTHENTICATION := Ascii("XDM-AUTHENTICATION-1")
  const XDM_AUTHORIZATION := Ascii("XDM-AUTHORIZATION-1")
  const MIT_MAGIC_COOKIE := Ascii("MIT-MAGIC-COOKIE-1")

  datatype Checked = Checked(credentials: Credentials, reply: Bytes)

  /** Unwraps what the display sent, keeps it, and wraps it again one higher. */
  function CheckXdm(c: Cipher, p: Credentials, keys: seq<KeyLine>, displayID: Bytes, data: Bytes): Option<Checked> {
    match GetKey(keys, displayID)
    case None => None
    case Some(k) =>
      if |data| != 8 then None
      else Some(Checked(p.(key := k, rho := Some(c.unwrap(k, data))), c.wrap(k, Increment(c.unwrap(k, data)))))
  }

  /** Any other authentication is accepted as it is. */
  function CheckAuthentication(c: Cipher, p: Credentials, keys: seq<KeyLine>, displayID: Bytes, name: Bytes,
          data: Bytes): Option<Checked> {
    if XDM_AUTHENTICATION <= name then CheckXdm(c, p, keys, displayID, data) else Some(Checked(p, data))
  }

  /** The session key: random, with a first byte the cipher does not use. */
  function SessionKey(random: Bytes): (r: Bytes)
    requires |random| == 8
    ensures |r| == 8 && r[0] == 0
  {
    random[0 := 0]
  }

  /** Rho is to be copied into the file's authorization, and there is none. */
  predicate CopiesNull(p: Credentials, name: Bytes, random: Option<Bytes>) {
    name == XDM_AUTHORIZATION && random.Some? && p.rho == None
  }

  /** Authorizations are made afresh for every accepted request; `random` fails for want of memory or entropy. */
  function SetAuthorization(c: Cipher, p: Credentials, name: Bytes, random: Option<Bytes>): Credentials
    requires random.Some? ==> |random.value| >= 16
  {
    var p := p.(fileAuth := None, xdmcpAuth := None);
    if random == None then p
    else if name == MIT_MAGIC_COOKIE then p.(fileAuth := Some(Auth(name, random.value[..16])))
    else if name == XDM_AUTHORIZATION && p.rho.Some? then
      var sigma := SessionKey(random.value[..8]);
      p.(fileAuth := Some(Auth(name, p.rho.value + sigma)), xdmcpAuth := Some(Auth(name, c.wrap(p.key, sigma))))
    else p
  }

  /** The authorization an ACCEPT carries. */
  function Offered(p: Credentials): Option<Auth> {
    if p.xdmcpAuth.Some? then p.xdmcpAuth else p.fileAuth
  }

  /**
   A display that sent rho under its key gets rho + 1 and the session key back under it, while the
   file the manager's clients read holds rho followed by that session key: a zero byte and seven random
   ones.
   */
  lemma DisplayAndFileAgree(c: Cipher, p: Credentials, keys: seq<KeyLine>, id: Bytes, rho: Bytes,
          authentication: Bytes, random: Bytes)
    requires Inverse(c) && |rho| == 8 && |random| >= 16 && XDM_AUTHENTICATION <= authentication
    requires GetKey(keys, id).Some?
    ensures var key := GetKey(keys, id).value;
            var checked := CheckAuthentication(c, p, keys, id, authentication, c.wrap(key, rho));
            checked.Some? && !CopiesNull(checked.value.credentials, XDM_AUTHORIZATION, Some(random)) &&
            var q := SetAuthorization(c, checked.value.credentials, XDM_AUTHORIZATION, Some(random));
            && c.unwrap(key, checked.value.reply) == Increment(rho)
            && Offered(q).Some? && q.fileAuth.Some?
            && var sigma := c.unwrap(key, Offered(q).value.data);
               && sigma == [0] + random[1..8] && q.fileAuth.value == Auth(XDM_AUTHORIZATION, rho + sigma)
  {
    var key := GetKey(keys, id).value;
    assert c.unwrap(key, c.wrap(key, rho)) == rho;
    assert c.unwrap(key, c.wrap(key, Increment(rho))) == Increment(rho);
    var sigma := SessionKey(random[..8]);
    assert c.unwrap(key, c.wrap(key, sigma)) == sigma == [0] + random[1..8];
    DistinctProtocols();
  }

  /** A cookie is sixteen random bytes, offered and kept for the file as they are. */
  lemma CookieIsRandom(c: Cipher, p: Credentials, random: Bytes)
    requires |random| >= 16
    ensures var q := SetAuthorization(c, p, MIT_MAGIC_COOKIE, Some(random));
            && Offered(q) == q.fileAuth == Some(Auth(MIT_MAGIC_COOKIE, random[..16]))
            && q.key == p.key && q.rho == p.rho
  {
    DistinctProtocols();
  }

  lemma DistinctProtocols()
    ensures XDM_AUTHORIZATION != MIT_MAGIC_COOKIE
  {
    assert |XDM_AUTHORIZATION| == 19 && |MIT_MAGIC_COOKIE| == 18;
  }

  /** What the display was offered opens what the file holds. */
  ghost predicate Agree(c: Cipher, key: Bytes, offered: Auth, file: Auth) {
    && offered.name == file.name
    && if offered.name == XDM_AUTHORIZATION then
         |file.data| >= 8 && c.unwrap(key, offered.data) == file.data[|file.data| - 8..]
       else offered.data == file.data
  }

  /** After any request that sets an authorization, what is offered agrees with what is kept for the file. */
  lemma OfferAgrees(c: Cipher, p: Credentials, name: Bytes, random: Option<Bytes>)
    requires Inverse(c) && (random.Some? ==> |random.value| >= 16)
    ensures var q := SetAuthorization(c, p, name, random);
            && (Offered(q).Some? <==> q.fileAuth.Some?)
            && (Offered(q).Some? ==> Agree(c, q.key, Offered(q).value, q.fileAuth.value))
            && q.key == p.key && q.rho == p.rho
  {
    DistinctProtocols();
    if random.Some? && name == XDM_AUTHORIZATION && p.rho.Some? {
      var sigma := SessionKey(random.value[..8]);
      assert c.unwrap(p.key, c.wrap(p.key, sigma)) == sigma;
      assert (p.rho.value + sigma)[|p.rho.value|..] == sigma;
    }
  }

  // ---------------------------------------------------------------- the code

  /** A `struct protoDisplay`, whose authentication fields are overwritten in place. */
  class ProtoDisplay {
    const from: Netaddr
    const number: nat
    const date: nat
    const connection: Client
    const sessionID: nat
    var next: ProtoDisplay?
    var key: Bytes
    var authenticationData: Option<Bytes>
    var fileAuthorization: Option<Auth>
    var xdmcpAuthorization: Option<Auth>

    function Value(): Credentials
      reads `key, `authenticationData, `fileAuthorization, `xdmcpAuthorization
    {
      Credentials(key, authenticationData, fileAuthorization, xdmcpAuthorization)
    }

    constructor (from: Netaddr, number: nat, date: nat, connection: Client, sessionID: nat, next: ProtoDisplay?)
      ensures this.from == from && this.number == number && this.date == date && this.connection == connection
      ensures this.sessionID == sessionID && Value() == NO_CREDENTIALS && this.next == next
    {
      this.from, this.number, this.date := from, number, date;
      this.connection, this.sessionID, this.next := connection, sessionID, next;
      key, authenticationData := ZEROS, None;
      fileAuthorization, xdmcpAuthorization := None, None;
    }

    method XdmGetKey(keys: seq<KeyLine>, displayID: Bytes) returns (ok: bool)
      modifies `key
      ensures ok == GetKey(keys, displayID).Some?
      ensures key == if ok then GetKey(keys, displayID).value else old(key)
    {
      for i := 0 to |keys|
        invariant key == old(key) && GetKey(keys, displayID) == GetKey(keys[i..], displayID)
      {
        assert keys[i..][1..] == keys[i + 1..];
        if keys[i].id == displayID {
          var k := KeyOf(keys[i].key);
          if k == None {
            return false;
          }
          key := k.value;
          return true;
        }
      }
      return false;
    }

    /** The packet's data is unwrapped, incremented and wrapped where it lies. */
    method XdmCheckAuthentication(c: Cipher, keys: seq<KeyLine>, displayID: Bytes, data: array<byte>) returns (ok: bool)
      requires BlockSized(c)
      modifies `key, `authenticationData, data
      ensures var r := CheckXdm(c, old(Value()), keys, displayID, old(data[..]));
              && ok == r.Some?
              && (ok ==> Value() == r.value.credentials && data[..] == r.value.reply)
              && (!ok ==> Value() == old(Value()).(key := key) && data[..] == old(data[..]))
    {
      ok := XdmGetKey(keys, displayID);
      if !ok || data.Length != 8 {
        return false;
      }
      Store(data, c.unwrap(key, data[..]));
      authenticationData := Some(data[..]);
      IncrementKey(data);
      Store(data, c.wrap(key, data[..]));
      return true;
    }

    /** XdmGetXdmcpAuth: the file's copy starts with rho, the packet's copy is wrapped. */
    method XdmGetXdmcpAuth(c: Cipher, name: Bytes, random: Option<Bytes>) returns (nullCopy: bool)
      requires random.Some? ==> |random.value| >= 16
      modifies `fileAuthorization, `xdmcpAuthorization
      ensures var makes := !old(fileAuthorization.Some? && xdmcpAuthorization.Some?) && random.Some?;
              && nullCopy == (makes && authenticationData == None)
              && if makes && !nullCopy then
                   var sigma := SessionKey(random.value[..8]);
                   && fileAuthorization == Some(Auth(name, authenticationData.value + sigma))
                   && xdmcpAuthorization == Some(Auth(name, c.wrap(key, sigma)))
                 else
                   fileAuthorization == old(fileAuthorization) && xdmcpAuthorization == old(xdmcpAuthorization)
    {
      if fileAuthorization.Some? && xdmcpAuthorization.Some? {
        return false;
      }
      if random == None {
        return false;
      }
      var data := random.value[..8];
      data := data[0 := 0];
      if authenticationData == None {
        return true;
      }
      fileAuthorization := Some(Auth(name, authenticationData.value + data));
      data := c.wrap(key, data);
      xdmcpAuthorization := Some(Auth(name, data));
      return false;
    }

    method SetProtoDisplayAuthorization(c: Cipher, name: Bytes, random: Option<Bytes>) returns (nullCopy: bool)
      requires random.Some? ==> |random.value| >= 16
      modifies `fileAuthorization, `xdmcpAuthorization
      ensures nullCopy == CopiesNull(old(Value()), name, random)
      ensures Value() == SetAuthorization(c, old(Value()), name, random)
    {
      DistinctProtocols();
      xdmcpAuthorization, fileAuthorization := None, None;
      nullCopy := false;
      if name == MIT_MAGIC_COOKIE {
        if random.Some? {
          fileAuthorization := Some(Auth(name, random.value[..16]));
        }
      } else if name == XDM_AUTHORIZATION {
        nullCopy := XdmGetXdmcpAuth(c, name, random);
      }
    }
  }

  /** `XdmcpWrap` and `XdmcpUnwrap` write their result over their argument. */
  method Store(data: array<byte>, bytes: Bytes)
    requires data.Length == |bytes|
    modifies data
    ensures data[..] == bytes
  {
    for i := 0 to data.Length
      invariant data[..i] == bytes[..i]
    {
      data[i] := bytes[i];
    }
  }
}
