/** The guest-facing wire types (the `types` module generated from the WASI interface
    description) and the host's `std::io::Error`. */
module Types {

  import opened Bytes

  /** IPv4 address: the two network and two host octets, first octet first. */
  datatype AddrIp4 = AddrIp4(n0: u8, n1: u8, h0: u8, h1: u8)

  /** IPv6 address: the eight 16-bit groups of section 2.2 of RFC 4291, first group first. */
  datatype AddrIp6 = AddrIp6(n0: u16, n1: u16, n2: u16, n3: u16, h0: u16, h1: u16, h2: u16, h3: u16)

  datatype AddrIp4Port = AddrIp4Port(addr: AddrIp4, port: u16)
  datatype AddrIp6Port = AddrIp6Port(addr: AddrIp6, port: u16)

  /** The tagged wire address. */
  datatype Addr = Ip4(ip4: AddrIp4Port) | Ip6(ip6: AddrIp6Port)

  /** Group `i` of an IPv6 address, counted from the first. */
  function Group(a: AddrIp6, i: nat): u16
    requires i < 8
  {
    if i == 0 then a.n0 else if i == 1 then a.n1 else if i == 2 then a.n2 else if i == 3 then a.n3
    else if i == 4 then a.h0 else if i == 5 then a.h1 else if i == 6 then a.h2 else a.h3
  }

  /** The groups of an IPv6 address, first to last. */
  function Groups(a: AddrIp6): (g: seq<u16>)
    ensures |g| == 8
    ensures forall i :: 0 <= i < 8 ==> g[i] == Group(a, i)
  {
    [a.n0, a.n1, a.n2, a.n3, a.h0, a.h1, a.h2, a.h3]
  }

  /** The IPv6 address whose groups are `g`. */
  function FromGroups(g: seq<u16>): (a: AddrIp6)
    requires |g| == 8
    ensures forall i :: 0 <= i < 8 ==> Group(a, i) == g[i]
  {
    AddrIp6(g[0], g[1], g[2], g[3], g[4], g[5], g[6], g[7])
  }

  /** An IPv6 address is determined by its groups. */
  lemma GroupsDetermineAddr(a: AddrIp6, b: AddrIp6)
    requires forall i :: 0 <= i < 8 ==> Group(a, i) == Group(b, i)
    ensures a == b
  {
    assert Group(a, 0) == Group(b, 0) && Group(a, 1) == Group(b, 1);
    assert Group(a, 2) == Group(b, 2) && Group(a, 3) == Group(b, 3);
    assert Group(a, 4) == Group(b, 4) && Group(a, 5) == Group(b, 5);
    assert Group(a, 6) == Group(b, 6) && Group(a, 7) == Group(b, 7);
  }

  datatype AddressFamily = Inet4 | Inet6

  datatype SockType = SocketStream | SocketDgram

  datatype Filetype =
    | Unknown | BlockDevice | CharacterDevice | Directory | RegularFile
    | SocketDgram | SocketStream | SymbolicLink

  /** Receive-input flags (`riflags`, a 16-bit set). */
  type Riflags = bv16
  const RECV_PEEK: Riflags := 1
  const RECV_WAITALL: Riflags := 2

  /** Shutdown flags (`sdflags`, an 8-bit set). */
  type Sdflags = bv8
  const RD: Sdflags := 1
  const WR: Sdflags := 2

  /** Send-input flags (`siflags`): the interface defines no flag in this set. */
  type Siflags = bv16

  /** One capability right. The full generated list is not part of this model; the modelled
      code names only SOCK_CONNECT. */
  datatype Right = SockConnect | OtherRight(bit: nat)

  /** A handle's rights: what it may do now (`base`) and what handles it spawns inherit. */
  datatype HandleRights = HandleRights(base: set<Right>, inheriting: set<Right>)

  /** `HandleRights::from_base`: the given base rights and nothing inheritable. */
  function FromBase(base: set<Right>): HandleRights {
    HandleRights(base, {})
  }

  /** `HandleRights::empty()`. */
  const EmptyRights: HandleRights := HandleRights({}, {})

  /** `std::io::Error`, reduced to the two ways the modelled code builds one: from a raw OS
      error code, or from `ErrorKind::InvalidInput`. */
  datatype IoError = OsError(code: int) | InvalidInput

  /** `libc::EINVAL` (the same value on Linux and in the Windows C runtime). */
  const EINVAL: int := 22
}
