/** Addresses as the manager handles them. */
module Network {
  newtype byte = b: int | 0 <= b < 256

  /** An ARRAY8. */
  type Bytes = seq<byte>

  /** Host address and connection type: what access rules and chooser lists are keyed by. */
  datatype Client = Client(connectionType: int, address: Bytes)

  /** The families of socket addresses; `ConvertAddr` knows all but the last. */
  datatype SocketFamily = AfUnspec | AfUnix | AfInet | AfInet6 | AfOther

  /**
   A socket address, as far as `addressEqual` looks at it (xdm/netaddr.c:168-202): equal values are
   equal addresses. The host of an IPv4-mapped IPv6 address has four bytes.
   */
  datatype Netaddr = Netaddr(family: SocketFamily, port: Bytes, host: Bytes)

  /** The protocol and data of an authorization. */
  datatype Auth = Auth(name: Bytes, data: Bytes)

  const FAMILY_INTERNET := 0
  const FAMILY_INTERNET6 := 6
  const FAMILY_LOCAL := 256

  /** `ConvertAddr`: the X protocol's family for an address, negative when there is none. */
  function Family(from: Netaddr): int {
    match from.family
    case AfUnspec => FAMILY_LOCAL
    case AfUnix => FAMILY_LOCAL
    case AfInet => FAMILY_INTERNET
    case AfInet6 => if |from.host| == 4 then FAMILY_INTERNET else FAMILY_INTERNET6
    case AfOther => -1
  }

  function ClientOf(from: Netaddr): Client {
    Client(Family(from), from.host)
  }

  /**
   An IPv4 sender on an IPv6 socket is the same client to access rules as on an IPv4 socket, but another
   sender to the protocol.
   */
  lemma MappedSender(port: Bytes, host: Bytes)
    requires |host| == 4
    ensures ClientOf(Netaddr(AfInet6, port, host)) == ClientOf(Netaddr(AfInet, port, host)) == Client(0, host)
    ensures Netaddr(AfInet6, port, host) != Netaddr(AfInet, port, host)
  {
  }
}
