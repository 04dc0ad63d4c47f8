/** Address pools: the allow-lists of endpoints a guest may reach, and the table that filters
    the host resolver's answers through them (crates/wasi-common/src/addr.rs). */
module AddressPools {

  import opened Bytes
  import opened Wrappers
  import opened Types
  import opened Net

  /** `Range<u16>`: `start` included, `end` excluded. */
  datatype PortRange = PortRange(start: u16, end: u16)

  predicate InPortRange(r: PortRange, port: u16) {
    r.start <= port < r.end
  }

  /** The implementations of the `AddressPool` trait. `Unrefined` stands for any implementing
      type that keeps both of the trait's default methods. */
  datatype AddressPool =
    | Fixed(fixedRights: HandleRights, addrs: seq<SocketAddr>)
    | Ranged(rangedRights: HandleRights, cidr: Cidr, ports: PortRange)
    | Unrefined

  /** `AddressPool::get_rights`: the rights a pool was built with; the trait's default grants
      nothing. */
  function GetRights(p: AddressPool): (r: HandleRights)
    ensures p.Unrefined? ==> r.base == {} && r.inheriting == {}
    ensures p.Fixed? ==> r == p.fixedRights
    ensures p.Ranged? ==> r == p.rangedRights
  {
    match p
    case Fixed(r, _) => r
    case Ranged(r, _, _) => r
    case Unrefined => EmptyRights
  }

  /** `AddressPool::contains`: a fixed pool admits the endpoints it lists, a ranged pool those
      sharing its network prefix on a port of its range, and the trait's default nothing. */
  predicate Contains(p: AddressPool, a: SocketAddr)
    ensures p.Unrefined? ==> !Contains(p, a)
    ensures p.Fixed? ==> (Contains(p, a) <==> exists i :: 0 <= i < |p.addrs| && p.addrs[i] == a)
    ensures p.Ranged? ==>
      (Contains(p, a) <==> PrefixMatch(p.cidr, Ip(a)) && p.ports.start <= a.port && a.port < p.ports.end)
  {
    match p
    case Fixed(_, addrs) => a in addrs
    case Ranged(_, cidr, ports) =>
      NetContainsIsPrefixMatch(cidr, Ip(a));
      NetContains(cidr, Ip(a)) && InPortRange(ports, a.port)
    case Unrefined => false
  }

  /** `FixedAddressPool::new`: a pool of exactly one endpoint, granting SOCK_CONNECT. */
  function NewFixed(a: SocketAddr): (p: AddressPool)
    ensures forall b :: Contains(p, b) <==> b == a
    ensures GetRights(p).base == {SockConnect} && GetRights(p).inheriting == {}
  {
    Fixed(FromBase({SockConnect}), [a])
  }

  /** A pool type that overrides neither default grants nothing and admits nothing. */
  lemma UnrefinedAdmitsNothing(a: SocketAddr)
    ensures !Contains(Unrefined, a)
    ensures GetRights(Unrefined) == HandleRights({}, {})
  {
  }

  /** A ranged pool admits exactly the addresses whose leading `prefixLen` bits match the
      network and whose port lies in `[start, end)`. */
  lemma RangedContainsIff(rights: HandleRights, cidr: Cidr, ports: PortRange, a: SocketAddr)
    ensures Contains(Ranged(rights, cidr, ports), a)
        <==> PrefixMatch(cidr, Ip(a)) && ports.start <= a.port && a.port < ports.end
  {
    NetContainsIsPrefixMatch(cidr, Ip(a));
  }

  /** Because the end of a `Range<u16>` is excluded and is itself a `u16`, no ranged pool
      admits port 65535, and a pool whose range is empty admits nothing. */
  lemma RangedPortBounds(p: AddressPool, a: SocketAddr)
    requires p.Ranged?
    ensures a.port == 0xFFFF ==> !Contains(p, a)
    ensures p.ports.start >= p.ports.end ==> !Contains(p, a)
  {
  }

  /** A pool for `10.0.0.0/24` with ports `[9000, 9100)`: the last host of the network on the
      first port is admitted; the end port, the port below the range, the first address past
      the network, and any IPv6 address are refused. */
  lemma RangedPoolExample(rights: HandleRights, seg: Segments)
    ensures var p := Ranged(rights, V4Net([10, 0, 0, 0], 24), PortRange(9000, 9100));
            && Contains(p, SocketAddrV4([10, 0, 0, 255], 9000))
            && !Contains(p, SocketAddrV4([10, 0, 0, 255], 9100))
            && !Contains(p, SocketAddrV4([10, 0, 0, 1], 8999))
            && !Contains(p, SocketAddrV4([10, 0, 1, 0], 9000))
            && !Contains(p, SocketAddrV6(seg, 9000, 0, 0))
  {
    var n: Cidr := V4Net([10, 0, 0, 0], 24);
    assert HostBits(n) == 8;
    assert Pow2(8) == 256 by {
      assert Pow2(0) == 1 && Pow2(1) == 2 && Pow2(2) == 4 && Pow2(3) == 8 && Pow2(4) == 16;
      assert Pow2(5) == 32 && Pow2(6) == 64 && Pow2(7) == 128;
    }
    assert Network(n) == 0x0A00_0000;
    assert Broadcast(n) == 0x0A00_00FF;
  }

  /** The test harness grants `127.0.0.1:<port>` (8080 unless told otherwise); the connect test
      targets `127.0.0.1:9090` and expects it to be refused, which holds for any granted port
      other than 9090. */
  lemma HarnessPoolRefusesOtherPort(port: u16)
    requires port != 9090
    ensures !Contains(NewFixed(SocketAddrV4([127, 0, 0, 1], port)), SocketAddrV4([127, 0, 0, 1], 9090))
    ensures Contains(NewFixed(SocketAddrV4([127, 0, 0, 1], port)), SocketAddrV4([127, 0, 0, 1], port))
  {
  }

  /** `AddressPoolTable`: the pools granted to the guest, in insertion order. */
  datatype AddressPoolTable = AddressPoolTable(pools: seq<AddressPool>)

  /** `AddressPoolTable::new`. */
  function NewTable(): (t: AddressPoolTable)
    ensures forall a :: !Permits(t, a)
  {
    AddressPoolTable([])
  }

  /** `AddressPoolTable::insert`: appends; the pools already present keep their positions. */
  function Insert(t: AddressPoolTable, p: AddressPool): (t': AddressPoolTable)
    ensures |t'.pools| == |t.pools| + 1
    ensures forall i :: 0 <= i < |t.pools| ==> t'.pools[i] == t.pools[i]
    ensures forall a :: Permits(t', a) <==> Permits(t, a) || Contains(p, a)
  {
    var t' := AddressPoolTable(t.pools + [p]);
    forall a ensures Permits(t', a) <==> Permits(t, a) || Contains(p, a) {
      AnyContainsIff(t'.pools, a);
      AnyContainsIff(t.pools, a);
      if Contains(p, a) {
        assert t'.pools[|t.pools|] == p;
      }
      if Permits(t', a) {
        var i :| 0 <= i < |t'.pools| && Contains(t'.pools[i], a);
        if i < |t.pools| {
          assert t.pools[i] == t'.pools[i];
        }
      }
      if Permits(t, a) {
        var i :| 0 <= i < |t.pools| && Contains(t.pools[i], a);
        assert t'.pools[i] == t.pools[i];
      }
    }
    t'
  }

  /** The filter closure of `resolve`: walks the pools in order and stops at the first one
      that contains the address. */
  predicate AnyContains(pools: seq<AddressPool>, a: SocketAddr) {
    if |pools| == 0 then false
    else if Contains(pools[0], a) then true
    else AnyContains(pools[1..], a)
  }

  /** The early-exit loop is an existential over the pools. */
  lemma {:induction false} AnyContainsIff(pools: seq<AddressPool>, a: SocketAddr)
    ensures AnyContains(pools, a) <==> exists i :: 0 <= i < |pools| && Contains(pools[i], a)
    decreases |pools|
  {
    if |pools| > 0 {
      AnyContainsIff(pools[1..], a);
      if !Contains(pools[0], a) && AnyContains(pools[1..], a) {
        var j :| 0 <= j < |pools| - 1 && Contains(pools[1..][j], a);
        assert Contains(pools[j + 1], a);
      }
      if exists i :: 0 <= i < |pools| && Contains(pools[i], a) {
        var i :| 0 <= i < |pools| && Contains(pools[i], a);
        if i > 0 {
          assert Contains(pools[1..][i - 1], a);
        }
      }
    }
  }

  /** Some pool of the table admits the address. */
  predicate Permits(t: AddressPoolTable, a: SocketAddr) {
    AnyContains(t.pools, a)
  }

  /** The conversion at the end of `resolve`: IPv4 octets become `n0, n1, h0, h1`, IPv6
      segments become `n0..n3, h0..h3`, the port is kept, and an IPv6 address's flow label and
      scope id are dropped. */
  function ToWire(a: SocketAddr): (r: Addr)
    ensures r.Ip4? <==> a.SocketAddrV4?
    ensures r.Ip4? ==> r.ip4.port == a.port && [r.ip4.addr.n0, r.ip4.addr.n1, r.ip4.addr.h0, r.ip4.addr.h1] == a.octets
    ensures r.Ip6? ==> r.ip6.port == a.port && forall i :: 0 <= i < 8 ==> Group(r.ip6.addr, i) == a.segments[i]
  {
    match a
    case SocketAddrV4(o, port) => Ip4(AddrIp4Port(AddrIp4(o[0], o[1], o[2], o[3]), port))
    case SocketAddrV6(s, port, _, _) =>
      Ip6(AddrIp6Port(AddrIp6(s[0], s[1], s[2], s[3], s[4], s[5], s[6], s[7]), port))
  }

  /** The wire address back as a `SocketAddr`, with flow label and scope id zero. */
  function FromWire(w: Addr): SocketAddr {
    match w
    case Ip4(AddrIp4Port(a, port)) => SocketAddrV4([a.n0, a.n1, a.h0, a.h1], port)
    case Ip6(AddrIp6Port(a, port)) =>
      SocketAddrV6([a.n0, a.n1, a.n2, a.n3, a.h0, a.h1, a.h2, a.h3], port, 0, 0)
  }

  /** `ToWire` loses nothing but the IPv6 flow label and scope id: every wire address comes
      from exactly the socket address `FromWire` gives, and two socket addresses with the same
      wire form differ at most in those two fields. */
  lemma ToWireRoundTrip(w: Addr, a: SocketAddr)
    ensures ToWire(FromWire(w)) == w
    ensures a.SocketAddrV4? ==> FromWire(ToWire(a)) == a
    ensures a.SocketAddrV6? ==> FromWire(ToWire(a)) == a.(flowinfo := 0, scopeId := 0)
    ensures ToWire(a).Ip4? <==> a.SocketAddrV4?
    ensures ToWire(a).Ip4? ==> ToWire(a).ip4.port == a.port
    ensures ToWire(a).Ip6? ==> ToWire(a).ip6.port == a.port
  {
    match a
    case SocketAddrV4(o, _) =>
      assert [o[0], o[1], o[2], o[3]] == o;
    case SocketAddrV6(s, _, _, _) =>
      assert [s[0], s[1], s[2], s[3], s[4], s[5], s[6], s[7]] == s;
  }

  /** The lazy `filter` then `map` then `collect` of `resolve`, over the resolver's answers. */
  function FilterMap(t: AddressPoolTable, addrs: seq<SocketAddr>): (r: seq<Addr>)
    ensures |r| <= |addrs|
    decreases |addrs|
  {
    if |addrs| == 0 then []
    else (if Permits(t, addrs[0]) then [ToWire(addrs[0])] else []) + FilterMap(t, addrs[1..])
  }

  predicate AllPermitted(t: AddressPoolTable, addrs: seq<SocketAddr>) {
    forall i :: 0 <= i < |addrs| ==> Permits(t, addrs[i])
  }

  predicate NonePermitted(t: AddressPoolTable, addrs: seq<SocketAddr>) {
    forall i :: 0 <= i < |addrs| ==> !Permits(t, addrs[i])
  }

  /** When every answer is admitted nothing is dropped; when none is, nothing is left. */
  lemma {:induction false} FilterMapAllOrNothing(t: AddressPoolTable, addrs: seq<SocketAddr>)
    ensures AllPermitted(t, addrs) ==>
      |FilterMap(t, addrs)| == |addrs| && forall i :: 0 <= i < |addrs| ==> FilterMap(t, addrs)[i] == ToWire(addrs[i])
    ensures NonePermitted(t, addrs) ==> FilterMap(t, addrs) == []
    decreases |addrs|
  {
    if |addrs| > 0 {
      var rest := addrs[1..];
      assert AllPermitted(t, addrs) ==> AllPermitted(t, rest) by {
        if AllPermitted(t, addrs) {
          forall i | 0 <= i < |rest| ensures Permits(t, rest[i]) {
            assert rest[i] == addrs[i + 1];
          }
        }
      }
      assert NonePermitted(t, addrs) ==> NonePermitted(t, rest) by {
        if NonePermitted(t, addrs) {
          forall i | 0 <= i < |rest| ensures !Permits(t, rest[i]) {
            assert rest[i] == addrs[i + 1];
          }
        }
      }
      FilterMapAllOrNothing(t, rest);
    }
  }

  /** `AddressPoolTable::resolve`, given what `(host, port).to_socket_addrs()` returned and
      the `From` conversion that `?` applies to an `io::Error` to turn it into the crate's own
      error type `E`: a resolver error comes back converted; otherwise the admitted answers,
      converted to wire addresses. */
  function Resolve<E>(t: AddressPoolTable, resolved: Result<seq<SocketAddr>, IoError>, toWasi: IoError -> E)
    : (r: Result<seq<Addr>, E>)
    ensures resolved.Err? <==> r.Err?
    ensures resolved.Err? ==> r.error == toWasi(resolved.error)
    ensures r.Ok? ==> |r.value| <= |resolved.value|
  {
    match resolved
    case Err(e) => Err(toWasi(e))
    case Ok(addrs) => Ok(FilterMap(t, addrs))
  }

  /** Filtering distributes over concatenation of the resolver's answers, so the output keeps
      the resolver's order; together with `FilterMapSingle` this determines it. */
  lemma {:induction false} FilterMapAppend(t: AddressPoolTable, xs: seq<SocketAddr>, ys: seq<SocketAddr>)
    ensures FilterMap(t, xs + ys) == FilterMap(t, xs) + FilterMap(t, ys)
    decreases |xs|
  {
    if |xs| == 0 {
      assert xs + ys == ys;
    } else {
      assert (xs + ys)[1..] == xs[1..] + ys;
      FilterMapAppend(t, xs[1..], ys);
    }
  }

  /** One answer is kept, converted, exactly when some pool admits it. */
  lemma FilterMapSingle(t: AddressPoolTable, a: SocketAddr)
    ensures FilterMap(t, [a]) == if Permits(t, a) then [ToWire(a)] else []
  {
    assert [a][1..] == [];
  }

  /** Every resolved address is the conversion of an answer some pool admits. */
  lemma {:induction false} ResolveSound(t: AddressPoolTable, addrs: seq<SocketAddr>, w: Addr)
    requires w in FilterMap(t, addrs)
    ensures exists a :: a in addrs && Permits(t, a) && ToWire(a) == w
    decreases |addrs|
  {
    if Permits(t, addrs[0]) && w == ToWire(addrs[0]) {
      assert addrs[0] in addrs;
    } else {
      ResolveSound(t, addrs[1..], w);
      var a :| a in addrs[1..] && Permits(t, a) && ToWire(a) == w;
      assert a in addrs;
    }
  }

  /** Every answer some pool admits appears, converted, in the result. */
  lemma {:induction false} ResolveComplete(t: AddressPoolTable, addrs: seq<SocketAddr>, a: SocketAddr)
    requires a in addrs && Permits(t, a)
    ensures ToWire(a) in FilterMap(t, addrs)
    decreases |addrs|
  {
    if addrs[0] != a {
      assert a in addrs[1..];
      ResolveComplete(t, addrs[1..], a);
    }
  }

  /** An empty table resolves every answer list to the empty list. */
  lemma {:induction false} ResolveEmptyTable<E>(resolved: seq<SocketAddr>, toWasi: IoError -> E)
    ensures Resolve(NewTable(), Ok(resolved), toWasi) == Ok([])
    decreases |resolved|
  {
    if |resolved| > 0 {
      ResolveEmptyTable(resolved[1..], toWasi);
    }
  }

  /** `xs` is a subsequence of `ys`: obtainable by deleting elements, order kept. */
  predicate Subsequence<T(==)>(xs: seq<T>, ys: seq<T>)
    decreases |ys|
  {
    if |ys| == 0 then |xs| == 0
    else Subsequence(xs, ys[1..]) || (|xs| > 0 && xs[0] == ys[0] && Subsequence(xs[1..], ys[1..]))
  }

  /** Inserting a pool never takes an address away: what a table resolved before, it still
      resolves after the insert, in the same order (a subsequence of the new result). */
  lemma {:induction false} InsertMonotone(t: AddressPoolTable, p: AddressPool, addrs: seq<SocketAddr>)
    ensures Subsequence(FilterMap(t, addrs), FilterMap(Insert(t, p), addrs))
    decreases |addrs|
  {
    var t' := Insert(t, p);
    if |addrs| > 0 {
      InsertMonotone(t, p, addrs[1..]);
      var before := FilterMap(t, addrs[1..]);
      var after := FilterMap(t', addrs[1..]);
      if Permits(t, addrs[0]) {
        assert Permits(t', addrs[0]);
        var xs := [ToWire(addrs[0])] + before;
        var ys := [ToWire(addrs[0])] + after;
        assert xs[1..] == before && ys[1..] == after;
      } else if Permits(t', addrs[0]) {
        var ys := [ToWire(addrs[0])] + after;
        assert ys[1..] == after;
        assert FilterMap(t, addrs) == before;
        assert FilterMap(t', addrs) == ys;
      } else {
        assert FilterMap(t, addrs) == before;
        assert FilterMap(t', addrs) == after;
      }
    }
  }
}
