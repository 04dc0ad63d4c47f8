/** The host-side address vocabulary: Rust's `std::net` socket addresses and the CIDR networks
    (`ipnet::IpNet`) that ranged address pools are built from. */
module Net {

  import opened Bytes

  type Octets = s: seq<u8> | |s| == 4 witness [0, 0, 0, 0]
  type Segments = s: seq<u16> | |s| == 8 witness [0, 0, 0, 0, 0, 0, 0, 0]

  datatype IpAddr = V4(octets: Octets) | V6(segments: Segments)

  /** `std::net::SocketAddr`. Equality of the IPv6 form includes the flow label and scope id,
      as the derived `PartialEq` of `SocketAddrV6` does. */
  datatype SocketAddr =
    | SocketAddrV4(octets: Octets, port: u16)
    | SocketAddrV6(segments: Segments, port: u16, flowinfo: u32, scopeId: u32)

  /** `SocketAddr::ip`. */
  function Ip(a: SocketAddr): IpAddr {
    match a
    case SocketAddrV4(o, _) => V4(o)
    case SocketAddrV6(s, _, _, _) => V6(s)
  }

  function Pow2(n: nat): (r: nat)
    ensures r >= 1
  {
    if n == 0 then 1 else 2 * Pow2(n - 1)
  }

  /** Big-endian value of a sequence of 16-bit groups. */
  function GroupsValue(s: seq<u16>): nat {
    if |s| == 0 then 0 else GroupsValue(s[..|s| - 1]) * 0x1_0000 + s[|s| - 1]
  }

  /** Bit width of an address of the given kind. */
  function Width(ip: IpAddr): nat {
    if ip.V4? then 32 else 128
  }

  /** The address read as one unsigned integer, first byte most significant (how `ipnet`
      compares addresses). */
  function AddrValue(ip: IpAddr): nat {
    match ip
    case V4(o) => FromBe32(o)
    case V6(s) => GroupsValue(s)
  }

  /** `ipnet::IpNet`: an address and a prefix length. */
  datatype IpNet = V4Net(addr4: Octets, prefixLen: nat) | V6Net(addr6: Segments, prefixLen: nat)

  /** `Ipv4Net::new` and `Ipv6Net::new` refuse prefix lengths longer than the address. */
  predicate ValidNet(n: IpNet) {
    match n
    case V4Net(_, p) => p <= 32
    case V6Net(_, p) => p <= 128
  }

  type Cidr = n: IpNet | ValidNet(n) witness V4Net([0, 0, 0, 0], 0)

  function NetAddr(n: Cidr): IpAddr {
    match n
    case V4Net(a, _) => V4(a)
    case V6Net(a, _) => V6(a)
  }

  /** Number of host bits of the network. */
  function HostBits(n: Cidr): nat {
    Width(NetAddr(n)) - n.prefixLen
  }

  /** `IpNet::network()`: the address with its host bits cleared. */
  function Network(n: Cidr): nat {
    var m := Pow2(HostBits(n));
    Times(Quot(AddrValue(NetAddr(n)), m), m)
  }

  /** Quotient and product of naturals, kept apart so that their signs are checked in a small
      context. */
  function Quot(a: nat, m: nat): nat
    requires m >= 1
  {
    a / m
  }

  function Times(a: nat, b: nat): nat {
    a * b
  }

  /** `IpNet::broadcast()`: the address with its host bits set. */
  function Broadcast(n: Cidr): nat {
    Network(n) + Pow2(HostBits(n)) - 1
  }

  /** `IpNet::contains(&IpAddr)`: an address of the other family is never contained; otherwise
      the address lies between the network and the broadcast address. */
  predicate NetContains(n: Cidr, ip: IpAddr) {
    && NetAddr(n).V4? == ip.V4?
    && Network(n) <= AddrValue(ip) <= Broadcast(n)
  }

  /** Prefix match in the sense of section 3.1 of RFC 4632: the leading `prefixLen` bits of
      the address equal those of the network. */
  predicate PrefixMatch(n: Cidr, ip: IpAddr) {
    && NetAddr(n).V4? == ip.V4?
    && Quot(AddrValue(ip), Pow2(HostBits(n))) == Quot(AddrValue(NetAddr(n)), Pow2(HostBits(n)))
  }

  /** The range test `ipnet` performs is exactly a prefix match. */
  lemma NetContainsIsPrefixMatch(n: Cidr, ip: IpAddr)
    ensures NetContains(n, ip) <==> PrefixMatch(n, ip)
  {
    var m := Pow2(HostBits(n));
    var q := Quot(AddrValue(NetAddr(n)), m);
    var y := AddrValue(ip);
    DivisionBand(y, m, q);
  }

  /** `y` has quotient `q` by `m` exactly when it lies in the band `[q*m, q*m + m - 1]`. */
  lemma DivisionBand(y: nat, m: nat, q: nat)
    requires m >= 1
    ensures Quot(y, m) == q <==> Times(q, m) <= y <= Times(q, m) + m - 1
  {
    var d := y / m;
    var r := y % m;
    assert y == d * m + r && 0 <= r < m;
    if d < q {
      MulMonotone(d + 1, q, m);
      assert (d + 1) * m == d * m + m;
    } else if d > q {
      MulMonotone(q + 1, d, m);
      assert (q + 1) * m == q * m + m;
    }
  }

  lemma MulMonotone(a: nat, b: nat, m: nat)
    requires a <= b
    ensures a * m <= b * m
  {
  }
}
