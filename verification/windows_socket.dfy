/** The Windows back end (crates/wasi-common/src/sys/windows/ossocket.rs): conversion of wire
    addresses and flags to and from the Winsock forms, and the raw socket wrapper over the
    Winsock helpers. Windows hosts are little-endian, so the 16-bit family field of a
    `SOCKADDR_STORAGE` is stored low byte first. The IPv6 codec is parametrised by the byte order
    in which each 16-bit group is laid out: storing a group into `Word_mut()[i]` as the code does
    lays it out in host order (`Little`); network order (`Big`) is what Winsock expects. */
module WindowsSocket {

  import opened Bytes
  import opened Wrappers
  import opened Types
  import opened Native
  import Winx

  /** `From<AddressFamily> for winx::socket::AddressFamily`. */
  function FamilyFrom(af: AddressFamily): (r: Winx.WinFamily)
    ensures (r == Winx.InetAddr) <==> af == Inet4
  {
    match af
    case Inet4 => Winx.InetAddr
    case Inet6 => Winx.Inet6Addr
  }

  /** `From<SockType> for winx::socket::SockType`: injective, and never one of the three
      Winsock types the guest cannot ask for. */
  function SockTypeFrom(t: SockType): (r: Winx.WinSockType)
    ensures r == Winx.Stream || r == Winx.Datagram
    ensures (r == Winx.Stream) <==> t == SockType.SocketStream
  {
    match t
    case SocketStream => Winx.Stream
    case SocketDgram => Winx.Datagram
  }

  /** `From<InAddr> for AddrIp4`: the bytes `s_b1 .. s_b4` in order. */
  function AddrIp4From(b: seq<u8>): (a: AddrIp4)
    requires |b| == 4
    ensures InAddrFrom(a) == b
  {
    AddrIp4(b[0], b[1], b[2], b[3])
  }

  /** Decoding an encoded IPv4 address gives it back. */
  lemma AddrIp4RoundTrip(a: AddrIp4)
    ensures AddrIp4From(InAddrFrom(a)) == a
  {
  }

  /** `From<&AddrIp6> for In6Addr`: group `i` laid out in bytes `2i` and `2i+1`, in byte order
      `order`. */
  function In6AddrFrom(order: Endian, a: AddrIp6): (r: seq<u8>)
    ensures |r| == 16
    ensures forall i :: 0 <= i < 8 ==> r[2 * i..2 * i + 2] == NativeBytes16(order, Group(a, i))
  {
    WordsLayout(order, Groups(a));
    Words(order, Groups(a))
  }

  /** `From<In6Addr> for AddrIp6`: group `i` read from bytes `2i` and `2i+1` in byte order
      `order`. */
  function AddrIp6From(order: Endian, b: seq<u8>): (a: AddrIp6)
    requires |b| == 16
    ensures forall i :: 0 <= i < 8 ==> Group(a, i) == FromNative16(order, b[2 * i..2 * i + 2])
  {
    FromGroups(seq(8, i requires 0 <= i < 8 => FromNative16(order, b[2 * i..2 * i + 2])))
  }

  /** Decoding an IPv6 encoding gives the address back, for either byte order. */
  lemma In6RoundTrip(order: Endian, a: AddrIp6)
    ensures AddrIp6From(order, In6AddrFrom(order, a)) == a
  {
    GroupsDetermineAddr(AddrIp6From(order, In6AddrFrom(order, a)), a);
  }

  /** Every 16-byte image is the encoding of what it decodes to, so the IPv6 codec is a
      bijection between addresses and images. */
  lemma In6BytesRoundTrip(order: Endian, b: seq<u8>)
    requires |b| == 16
    ensures In6AddrFrom(order, AddrIp6From(order, b)) == b
  {
    var a := AddrIp6From(order, b);
    var c := In6AddrFrom(order, a);
    forall i | 0 <= i < 8 ensures c[2 * i..2 * i + 2] == b[2 * i..2 * i + 2] {
      var x := FromNative16(order, b[2 * i..2 * i + 2]);
      assert Group(a, i) == x;
      assert FromNative16(order, c[2 * i..2 * i + 2]) == x by {
        assert c[2 * i..2 * i + 2] == NativeBytes16(order, x);
      }
      FromNative16Injective(order, c[2 * i..2 * i + 2], b[2 * i..2 * i + 2]);
    }
    PairsDetermineBytes(c, b);
  }

  /** Two 16-byte images that agree on every aligned pair are equal. */
  lemma PairsDetermineBytes(c: seq<u8>, b: seq<u8>)
    requires |c| == 16 && |b| == 16
    requires forall i :: 0 <= i < 8 ==> c[2 * i..2 * i + 2] == b[2 * i..2 * i + 2]
    ensures c == b
  {
    forall j | 0 <= j < 16 ensures c[j] == b[j] {
      var i := j / 2;
      assert c[2 * i..2 * i + 2][j - 2 * i] == b[2 * i..2 * i + 2][j - 2 * i];
    }
  }

  /** The `ADDRESS_FAMILY` field of a Winsock family value on a little-endian host. */
  function FamilyBytes(f: Winx.WinFamily): seq<u8> {
    LeBytes16(Winx.FamilyValue(f))
  }

  /** The storage the encoder writes for `a`, with IPv6 groups laid out in `order`. */
  function EncodeStorage(order: Endian, a: Addr): Storage {
    match a
    case Ip4(p) => In4Storage(FamilyBytes(Winx.InetAddr), p.port, InAddrFrom(p.addr))
    case Ip6(p) => In6Storage(FamilyBytes(Winx.Inet6Addr), p.port, In6AddrFrom(order, p.addr))
  }

  /** `From<&Addr> for SockAddr`, as written: the family from the variant, the port through
      `to_be`, the groups in host order, and a declared length of `size_of::<SOCKADDR_IN>()`
      for both variants. */
  function SockAddrFromAsWritten(a: Addr): (r: SockAddr)
    ensures r.len == SOCKADDR_IN_SIZE
    ensures FromLe16(r.storage[..2]) == if a.Ip4? then Winx.AF_INET else Winx.AF_INET6
    ensures FromBe16(r.storage[2..4]) == if a.Ip4? then a.ip4.port else a.ip6.port
    ensures a.Ip4? ==> r.storage[4..8] == [a.ip4.addr.n0, a.ip4.addr.n1, a.ip4.addr.h0, a.ip4.addr.h1]
    ensures a.Ip4? ==> forall i :: 8 <= i < SOCKADDR_STORAGE_SIZE ==> r.storage[i] == 0
    ensures a.Ip6? ==> r.storage[8..24] == In6AddrFrom(Little, a.ip6.addr)
    ensures a.Ip6? ==> forall i :: (4 <= i < 8 || 24 <= i < SOCKADDR_STORAGE_SIZE) ==> r.storage[i] == 0
  {
    SockAddr(EncodeStorage(Little, a), SOCKADDR_IN_SIZE)
  }

  /** The encoder as Winsock needs it: groups in network order and the length of the structure
      actually written, `size_of::<SOCKADDR_IN6>()` for IPv6. */
  function SockAddrFrom(a: Addr): (r: SockAddr)
    ensures r.len == if a.Ip4? then SOCKADDR_IN_SIZE else SOCKADDR_IN6_SIZE
    ensures FromLe16(r.storage[..2]) == if a.Ip4? then Winx.AF_INET else Winx.AF_INET6
    ensures FromBe16(r.storage[2..4]) == if a.Ip4? then a.ip4.port else a.ip6.port
    ensures a.Ip4? ==> r.storage == SockAddrFromAsWritten(a).storage
    ensures a.Ip6? ==> r.storage[8..24] == In6AddrFrom(Big, a.ip6.addr)
    ensures a.Ip6? ==> forall i :: (4 <= i < 8 || 24 <= i < SOCKADDR_STORAGE_SIZE) ==> r.storage[i] == 0
  {
    SockAddr(EncodeStorage(Big, a), if a.Ip4? then SOCKADDR_IN_SIZE else SOCKADDR_IN6_SIZE)
  }

  /** `TryFrom<&SockAddr> for Addr`: the family read from the storage selects the variant;
      `AF_INET` reads the port through `from_be` and the address bytes at 4, `AF_INET6` the
      port and the groups at 8; any other family is `EINVAL`. The declared length is not
      consulted. */
  function TryFrom(order: Endian, sa: SockAddr): (r: Result<Addr, IoError>)
    ensures r.Err? <==> FromLe16(sa.storage[..2]) != Winx.AF_INET && FromLe16(sa.storage[..2]) != Winx.AF_INET6
    ensures r.Err? ==> r.error == OsError(EINVAL)
    ensures r.Ok? ==> (r.value.Ip4? <==> FromLe16(sa.storage[..2]) == Winx.AF_INET)
    ensures r.Ok? ==> FromBe16(sa.storage[2..4]) == if r.value.Ip4? then r.value.ip4.port else r.value.ip6.port
  {
    var family := FromLe16(sa.storage[..2]);
    var port := FromBe16(sa.storage[2..4]);
    if family == Winx.AF_INET then Ok(Ip4(AddrIp4Port(AddrIp4From(sa.storage[4..8]), port)))
    else if family == Winx.AF_INET6 then Ok(Ip6(AddrIp6Port(AddrIp6From(order, sa.storage[8..24]), port)))
    else Err(OsError(EINVAL))
  }

  /** Full codec round trip: decoding what the encoder wrote gives the wire address back, both
      for the code as written and for the network-order codec. */
  lemma CodecRoundTrip(a: Addr)
    ensures TryFrom(Little, SockAddrFromAsWritten(a)) == Ok(a)
    ensures TryFrom(Big, SockAddrFrom(a)) == Ok(a)
  {
    if a.Ip6? {
      In6RoundTrip(Little, a.ip6.addr);
      In6RoundTrip(Big, a.ip6.addr);
    }
  }

  /** The decoder reads nothing past byte 24 of the storage. */
  lemma TryFromReadsPrefix(order: Endian, x: SockAddr, y: SockAddr)
    requires x.storage[..24] == y.storage[..24]
    ensures TryFrom(order, x) == TryFrom(order, y)
  {
    assert x.storage[..2] == x.storage[..24][..2] && y.storage[..2] == y.storage[..24][..2];
    assert x.storage[2..4] == x.storage[..24][2..4] && y.storage[2..4] == y.storage[..24][2..4];
    assert x.storage[4..8] == x.storage[..24][4..8] && y.storage[4..8] == y.storage[..24][4..8];
    assert x.storage[8..24] == x.storage[..24][8..24] && y.storage[8..24] == y.storage[..24][8..24];
  }

  /** As written, the declared length of an IPv6 address covers only the first eight of its
      sixteen address bytes: two IPv6 addresses on the same port whose first four groups agree
      declare the same bytes to Winsock. */
  lemma {:induction false} Ip6AsWrittenDeclaresFourGroups(x: AddrIp6, y: AddrIp6, port: u16)
    requires forall i :: 0 <= i < 4 ==> Group(x, i) == Group(y, i)
    ensures var ea := SockAddrFromAsWritten(Ip6(AddrIp6Port(x, port)));
            var eb := SockAddrFromAsWritten(Ip6(AddrIp6Port(y, port)));
            ea.len == eb.len == 16 && ea.storage[..ea.len] == eb.storage[..eb.len]
  {
    var ix := In6AddrFrom(Little, x);
    var iy := In6AddrFrom(Little, y);
    forall i | 0 <= i < 4 ensures ix[..8][2 * i..2 * i + 2] == iy[..8][2 * i..2 * i + 2] {
      assert ix[..8][2 * i..2 * i + 2] == ix[2 * i..2 * i + 2] == NativeBytes16(Little, Group(x, i));
      assert iy[..8][2 * i..2 * i + 2] == iy[2 * i..2 * i + 2] == NativeBytes16(Little, Group(y, i));
    }
    PairsDetermineEight(ix[..8], iy[..8]);
    var f := FamilyBytes(Winx.Inet6Addr);
    var sa := In6Storage(f, port, ix);
    var sb := In6Storage(f, port, iy);
    forall j | 0 <= j < 16 ensures sa[j] == sb[j] {
      if j < 2 {
        assert sa[..2][j] == sb[..2][j];
      } else if j < 4 {
        assert sa[2..4][j - 2] == sb[2..4][j - 2];
      } else if j >= 8 {
        assert sa[8..24][j - 8] == ix[..8][j - 8] && sb[8..24][j - 8] == iy[..8][j - 8];
      }
    }
    assert sa[..16] == sb[..16];
  }

  /** The instance: `[::]:80` and `[::1]:80` declare the same bytes to Winsock. */
  lemma Ip6LengthAsWrittenLosesGroups()
    ensures var a := Ip6(AddrIp6Port(AddrIp6(0, 0, 0, 0, 0, 0, 0, 0), 80));
            var b := Ip6(AddrIp6Port(LOOPBACK6, 80));
            var ea := SockAddrFromAsWritten(a);
            var eb := SockAddrFromAsWritten(b);
            a != b && ea.len == eb.len == 16 && ea.storage[..ea.len] == eb.storage[..eb.len]
  {
    Ip6AsWrittenDeclaresFourGroups(AddrIp6(0, 0, 0, 0, 0, 0, 0, 0), LOOPBACK6, 80);
  }

  /** Two 8-byte images that agree on every aligned pair are equal. */
  lemma PairsDetermineEight(c: seq<u8>, b: seq<u8>)
    requires |c| == 8 && |b| == 8
    requires forall i :: 0 <= i < 4 ==> c[2 * i..2 * i + 2] == b[2 * i..2 * i + 2]
    ensures c == b
  {
    forall j | 0 <= j < 8 ensures c[j] == b[j] {
      var i := j / 2;
      assert c[2 * i..2 * i + 2][j - 2 * i] == b[2 * i..2 * i + 2][j - 2 * i];
    }
  }

  /** With the corrected length, the bytes declared to Winsock determine the address. */
  lemma DeclaredBytesDetermineAddr(a: Addr, b: Addr)
    requires SockAddrFrom(a).len == SockAddrFrom(b).len
    requires SockAddrFrom(a).storage[..SockAddrFrom(a).len] == SockAddrFrom(b).storage[..SockAddrFrom(b).len]
    ensures a == b
  {
    var x := SockAddrFrom(a);
    var y := SockAddrFrom(b);
    assert a.Ip4? == b.Ip4?;
    forall i | 0 <= i < 24 ensures x.storage[i] == y.storage[i] {
      if i < x.len {
        assert x.storage[..x.len][i] == y.storage[..y.len][i];
      } else {
        assert x.storage == EncodeStorage(Big, a) && y.storage == EncodeStorage(Big, b);
      }
    }
    assert x.storage[..24] == y.storage[..24];
    TryFromReadsPrefix(Big, x, y);
    CodecRoundTrip(a);
    CodecRoundTrip(b);
  }

  /** A 16-bit value with its two bytes exchanged. */
  function Swap16(x: u16): u16 {
    (x % 0x100) * 0x100 + x / 0x100
  }

  /** Groups laid out in host order and read in network order come back byte-swapped: what
      Winsock reads from the as-written encoding is every group with its bytes exchanged. */
  lemma HostOrderReadAsNetworkOrder(a: AddrIp6)
    ensures AddrIp6From(Big, In6AddrFrom(Little, a)) == SwapGroups(a)
  {
    var e := In6AddrFrom(Little, a);
    var read := AddrIp6From(Big, e);
    forall i | 0 <= i < 8 ensures Group(read, i) == Group(SwapGroups(a), i) {
      assert e[2 * i..2 * i + 2] == LeBytes16(Group(a, i));
    }
    GroupsDetermineAddr(read, SwapGroups(a));
  }

  const LOOPBACK6: AddrIp6 := AddrIp6(0, 0, 0, 0, 0, 0, 0, 1)

  /** An address whose last group is 1, such as the loopback address `::1`, ends in the bytes
      `1, 0` when laid out in host order, where network order puts `0, 1`. */
  lemma LoopbackLaidOutSwapped(a: AddrIp6)
    requires a.h3 == 1
    ensures In6AddrFrom(Little, a)[14..16] == [1, 0]
    ensures In6AddrFrom(Big, a)[14..16] == [0, 1]
  {
    LastGroupLaidOut(Little, a);
    LastGroupLaidOut(Big, a);
  }

  /** The last group of an IPv6 address occupies the last two bytes of its image. */
  lemma LastGroupLaidOut(order: Endian, a: AddrIp6)
    ensures In6AddrFrom(order, a)[14..16] == NativeBytes16(order, a.h3)
  {
    assert Group(a, 7) == a.h3;
    assert In6AddrFrom(order, a)[2 * 7..2 * 7 + 2] == NativeBytes16(order, Group(a, 7));
  }

  /** Winsock reads the as-written image of `::1` as `::100`. */
  lemma LoopbackReadAsSwapped()
    ensures AddrIp6From(Big, In6AddrFrom(Little, LOOPBACK6)) == AddrIp6(0, 0, 0, 0, 0, 0, 0, 0x100)
  {
    HostOrderReadAsNetworkOrder(LOOPBACK6);
  }

  /** `From<Riflags> for RecvFlags`: peek and wait-all as asked, never out-of-band, with the
      bits the helpers define for those flags. */
  function RecvFlagsFrom(flags: Riflags): (r: bv32)
    ensures r & Winx.RECV_FLAGS_PEEK == Winx.RECV_FLAGS_PEEK <==> flags & RECV_PEEK == RECV_PEEK
    ensures r & Winx.RECV_FLAGS_WAIT_ALL == Winx.RECV_FLAGS_WAIT_ALL <==> flags & RECV_WAITALL == RECV_WAITALL
    ensures r & Winx.RECV_FLAGS_OOB == 0
  {
    Winx.RecvFlagsBitsAsWritten(RecvFlagsOf(flags))
  }

  /** What Winsock reads from those bits: peek as asked, but never wait-all; a wait-all
      request arrives as `MSG_DONTROUTE`. */
  lemma RecvFlagsAsReadByWinsock(flags: Riflags)
    ensures Winx.RecvFlagsOfBits(RecvFlagsFrom(flags)) == RecvFlagsOf(flags) - {WaitAll}
    ensures RecvFlagsFrom(flags) & Winx.MSG_DONTROUTE == Winx.MSG_DONTROUTE <==> flags & RECV_WAITALL == RECV_WAITALL
  {
  }

  /** The conversion with each flag as its Winsock header value: Winsock reads back exactly
      the flags the guest asked for. */
  function RecvFlagsFromCorrected(flags: Riflags): (r: bv32)
    ensures r & Winx.MSG_PEEK == Winx.MSG_PEEK <==> flags & RECV_PEEK == RECV_PEEK
    ensures r & Winx.MSG_WAITALL == Winx.MSG_WAITALL <==> flags & RECV_WAITALL == RECV_WAITALL
    ensures r & Winx.MSG_OOB == 0
    ensures Winx.RecvFlagsOfBits(r) == RecvFlagsOf(flags)
  {
    Winx.RecvFlagsBitsRoundTrip(RecvFlagsOf(flags));
    Winx.RecvFlagsBits(RecvFlagsOf(flags))
  }

  /** The raw Winsock handle. */
  datatype RawOsSocket = RawOsSocket(socket: Winx.Socket)

  /** `try_clone`: an alias of the same handle; nothing is duplicated. */
  function TryClone(s: RawOsSocket): (r: Result<RawOsSocket, IoError>)
    ensures r.Ok? && r.value.socket == s.socket
  {
    Ok(RawOsSocket(s.socket))
  }

  datatype NewStep = NewStep(state: Winx.Winsock, outcome: Winx.Outcome<Result<RawOsSocket, IoError>>)

  /** `new`: a Winsock socket of the converted family and type, with no protocol; the handle
      is wrapped, an invalid one reported with the last Winsock error. */
  function New(w: Winx.Winsock, af: AddressFamily, t: SockType, os: Winx.SocketOs): (s: NewStep)
    ensures s.state == Winx.SocketCall(w, FamilyFrom(af), SockTypeFrom(t), None, os).state
    ensures s.outcome.Returned? ==>
      var handle := os.wsaSocket(Winx.FamilyValue(FamilyFrom(af)), Winx.SockTypeValue(SockTypeFrom(t)), 0);
      && |s.state.calls| > 0
      && s.state.calls[|s.state.calls| - 1] == Winx.WsaSocketW(Winx.FamilyValue(FamilyFrom(af)), Winx.SockTypeValue(SockTypeFrom(t)), 0, Winx.WSA_FLAG_OVERLAPPED)
      && (s.outcome.value.Ok? <==> handle != Winx.INVALID_SOCKET)
      && (s.outcome.value.Ok? ==> s.outcome.value.value == RawOsSocket(handle))
      && (s.outcome.value.Err? ==> s.outcome.value.error == OsError(os.lastError))
  {
    var step := Winx.SocketCall(w, FamilyFrom(af), SockTypeFrom(t), None, os);
    match step.outcome
    case Panicked => NewStep(step.state, Winx.Panicked)
    case Returned(r) =>
      NewStep(step.state, Winx.Returned(if r.Ok? then Ok(RawOsSocket(r.value)) else Err(r.error)))
  }

  /** `bind`: the OS sees the address as the code encodes it (groups in host order, declared
      length 16); its status decides the result. */
  function Bind(s: RawOsSocket, a: Addr, bind: (Winx.Socket, SockAddr) -> Winx.Reply): (r: Result<(), IoError>)
    ensures var reply := bind(s.socket, SockAddrFromAsWritten(a));
            (r.Ok? <==> reply.ret != Winx.SOCKET_ERROR) && (r.Err? ==> r.error == OsError(reply.lastError))
  {
    Winx.Bind(s.socket, SockAddrFromAsWritten(a), bind)
  }

  /** `connect`: as `bind`, through `connect`. */
  function Connect(s: RawOsSocket, a: Addr, connect: (Winx.Socket, SockAddr) -> Winx.Reply): (r: Result<(), IoError>)
    ensures var reply := connect(s.socket, SockAddrFromAsWritten(a));
            (r.Ok? <==> reply.ret != Winx.SOCKET_ERROR) && (r.Err? ==> r.error == OsError(reply.lastError))
  {
    Winx.Connect(s.socket, SockAddrFromAsWritten(a), connect)
  }

  /** `listen`: the `u32` backlog goes through `as usize` and then `as c_int`. A backlog below
      2^31 arrives unchanged; a larger one wraps to a negative value rather than being clamped. */
  function Listen(s: RawOsSocket, backlog: u32, listen: (Winx.Socket, i32) -> Winx.Reply): (r: Result<(), IoError>)
    ensures backlog < 0x8000_0000 ==>
      && (r.Ok? <==> listen(s.socket, backlog).ret != Winx.SOCKET_ERROR)
      && (r.Err? ==> r.error == OsError(listen(s.socket, backlog).lastError))
    ensures backlog >= 0x8000_0000 ==>
      && (r.Ok? <==> listen(s.socket, backlog - 0x1_0000_0000).ret != Winx.SOCKET_ERROR)
      && (r.Err? ==> r.error == OsError(listen(s.socket, backlog - 0x1_0000_0000).lastError))
  {
    Winx.Listen(s.socket, backlog, listen)
  }

  /** Decoding a name the OS wrote: the family is read little-endian and the groups in host
      order, as the code does. */
  function DecodeName(storage: Storage, len: i32): (r: Result<Addr, IoError>)
    ensures var family := FromLe16(storage[..2]);
            (r.Ok? <==> family == Winx.AF_INET || family == Winx.AF_INET6)
            && (r.Err? ==> r.error == OsError(EINVAL))
  {
    TryFrom(Little, SockAddr(storage, len))
  }

  /** `accept`: the new handle and the peer's address decoded from what the OS wrote; a family
      the codec does not know fails the call with `EINVAL`. */
  function Accept(s: RawOsSocket, accept: (Winx.Socket, int) -> Winx.AcceptReply): (r: Result<(RawOsSocket, Addr), IoError>)
    ensures var reply := accept(s.socket, SOCKADDR_STORAGE_SIZE);
            var decoded := DecodeName(reply.storage, reply.len);
            && (r.Ok? <==> reply.socket != Winx.INVALID_SOCKET && decoded.Ok?)
            && (r.Ok? ==> r.value == (RawOsSocket(reply.socket), decoded.value))
            && (r.Err? ==> r.error == if reply.socket == Winx.INVALID_SOCKET then OsError(reply.lastError) else OsError(EINVAL))
  {
    var (fd, addr) :- Winx.Accept(s.socket, accept);
    var a :- DecodeName(addr.storage, addr.len);
    Ok((RawOsSocket(fd), a))
  }

  /** `recv`, with the converted receive flags; the count comes back through `as usize`. */
  function Recv(s: RawOsSocket, bufLen: nat, flags: Riflags, recv: (Winx.Socket, i32, bv32) -> Winx.Reply)
    : (r: Result<usize, IoError>)
    ensures var reply := recv(s.socket, AsI32(bufLen), RecvFlagsFrom(flags));
            && (r.Ok? <==> reply.ret != Winx.SOCKET_ERROR)
            && (r.Ok? ==> r.value == AsUsize(reply.ret))
            && (r.Err? ==> r.error == OsError(reply.lastError))
  {
    Winx.Recv(s.socket, bufLen, RecvFlagsFrom(flags), recv)
  }

  /** `recvfrom`, with the converted receive flags and the sender's address decoded. */
  function RecvFrom(s: RawOsSocket, bufLen: nat, flags: Riflags, recvfrom: (Winx.Socket, i32, bv32, int) -> Winx.AddrReply)
    : (r: Result<(usize, Addr), IoError>)
    ensures var reply := recvfrom(s.socket, AsI32(bufLen), RecvFlagsFrom(flags), SOCKADDR_STORAGE_SIZE);
            var decoded := DecodeName(reply.storage, reply.len);
            && (r.Ok? <==> reply.ret != Winx.SOCKET_ERROR && decoded.Ok?)
            && (r.Ok? ==> r.value == (AsUsize(reply.ret), decoded.value))
            && (r.Err? ==> r.error == if reply.ret == Winx.SOCKET_ERROR then OsError(reply.lastError) else OsError(EINVAL))
  {
    var (n, addr) :- Winx.RecvFrom(s.socket, bufLen, RecvFlagsFrom(flags), recvfrom);
    var a :- DecodeName(addr.storage, addr.len);
    Ok((n, a))
  }

  /** `shutdown`: the flags are converted first; with neither direction set the call fails
      with `InvalidInput` and the OS is not asked. */
  function Shutdown(s: RawOsSocket, how: Sdflags, shutdown: (Winx.Socket, i32) -> Winx.Reply): (r: Result<(), IoError>)
    ensures how & (RD | WR) == 0 ==> r == Err(InvalidInput)
    ensures how & (RD | WR) != 0 ==>
      var reply := shutdown(s.socket, Winx.ShutdownModeValue(ShutdownModeOf(how).value));
      (r.Ok? <==> reply.ret != Winx.SOCKET_ERROR) && (r.Err? ==> r.error == OsError(reply.lastError))
  {
    var mode :- ShutdownModeOf(how);
    Winx.Shutdown(s.socket, mode, shutdown)
  }

  /** `send`: the guest's flags are dropped; the OS always gets `SendFlags::empty()`. */
  function Send(s: RawOsSocket, buf: seq<u8>, flags: Siflags, send: (Winx.Socket, seq<u8>, i32, bv32) -> Winx.Reply)
    : (r: Result<usize, IoError>)
    ensures var reply := send(s.socket, buf, AsI32(|buf|), 0);
            && (r.Ok? <==> reply.ret != Winx.SOCKET_ERROR)
            && (r.Ok? ==> r.value == AsUsize(reply.ret))
            && (r.Err? ==> r.error == OsError(reply.lastError))
  {
    Winx.Send(s.socket, buf, Winx.SEND_FLAGS_EMPTY, send)
  }

  /** `sendto`: the guest's flags are dropped; the OS always gets `SendFlags::empty()` and the
      destination as the code encodes it. */
  function SendTo(s: RawOsSocket, buf: seq<u8>, a: Addr, flags: Siflags,
                  sendto: (Winx.Socket, seq<u8>, i32, bv32, SockAddr) -> Winx.Reply): (r: Result<usize, IoError>)
    ensures var reply := sendto(s.socket, buf, AsI32(|buf|), 0, SockAddrFromAsWritten(a));
            && (r.Ok? <==> reply.ret != Winx.SOCKET_ERROR)
            && (r.Ok? ==> r.value == AsUsize(reply.ret))
            && (r.Err? ==> r.error == OsError(reply.lastError))
  {
    Winx.SendTo(s.socket, buf, SockAddrFromAsWritten(a), Winx.SEND_FLAGS_EMPTY, sendto)
  }

  /** Whatever send flags the guest passes, `send` and `sendto` behave the same. */
  lemma SendIgnoresFlags(s: RawOsSocket, buf: seq<u8>, a: Addr, f: Siflags, g: Siflags,
                         send: (Winx.Socket, seq<u8>, i32, bv32) -> Winx.Reply,
                         sendto: (Winx.Socket, seq<u8>, i32, bv32, SockAddr) -> Winx.Reply)
    ensures Send(s, buf, f, send) == Send(s, buf, g, send)
    ensures SendTo(s, buf, a, f, sendto) == SendTo(s, buf, a, g, sendto)
  {
  }

  /** `addr_local`: the local name, decoded. */
  function AddrLocal(s: RawOsSocket, getsockname: (Winx.Socket, int) -> Winx.AddrReply): (r: Result<Addr, IoError>)
    ensures var reply := getsockname(s.socket, SOCKADDR_STORAGE_SIZE);
            var decoded := DecodeName(reply.storage, reply.len);
            && (r.Ok? <==> reply.ret != Winx.SOCKET_ERROR && decoded.Ok?)
            && (r.Ok? ==> r.value == decoded.value)
            && (r.Err? ==> r.error == if reply.ret == Winx.SOCKET_ERROR then OsError(reply.lastError) else OsError(EINVAL))
  {
    var addr :- Winx.SockName(s.socket, getsockname);
    DecodeName(addr.storage, addr.len)
  }

  /** `addr_remote`: the peer's name, decoded. */
  function AddrRemote(s: RawOsSocket, getpeername: (Winx.Socket, int) -> Winx.AddrReply): (r: Result<Addr, IoError>)
    ensures var reply := getpeername(s.socket, SOCKADDR_STORAGE_SIZE);
            var decoded := DecodeName(reply.storage, reply.len);
            && (r.Ok? <==> reply.ret != Winx.SOCKET_ERROR && decoded.Ok?)
            && (r.Ok? ==> r.value == decoded.value)
            && (r.Err? ==> r.error == if reply.ret == Winx.SOCKET_ERROR then OsError(reply.lastError) else OsError(EINVAL))
  {
    var addr :- Winx.PeerName(s.socket, getpeername);
    DecodeName(addr.storage, addr.len)
  }

  /** An OS that hands back, from `getsockname`, the very `sockaddr` that `bind` was given. */
  predicate EchoesName(s: RawOsSocket, a: Addr, getname: (Winx.Socket, int) -> Winx.AddrReply) {
    var reply := getname(s.socket, SOCKADDR_STORAGE_SIZE);
    var sa := SockAddrFromAsWritten(a);
    reply.ret != Winx.SOCKET_ERROR && reply.storage == sa.storage && reply.len == sa.len
  }

  /** Encoding and decoding agree with each other: an address bound (or connected to) and read
      back verbatim through `addr_local` (or `addr_remote`) is the address itself. */
  lemma NameRoundTrip(s: RawOsSocket, a: Addr, getname: (Winx.Socket, int) -> Winx.AddrReply)
    requires EchoesName(s, a, getname)
    ensures AddrLocal(s, getname) == Ok(a)
    ensures AddrRemote(s, getname) == Ok(a)
  {
    CodecRoundTrip(a);
  }

  /** The same for `accept` and `recvfrom`, when the peer's address reaches them exactly as
      this code encodes it. */
  lemma PeerRoundTrip(s: RawOsSocket, a: Addr, bufLen: nat, flags: Riflags,
                      accept: (Winx.Socket, int) -> Winx.AcceptReply,
                      recvfrom: (Winx.Socket, i32, bv32, int) -> Winx.AddrReply)
    requires accept(s.socket, SOCKADDR_STORAGE_SIZE).socket != Winx.INVALID_SOCKET
    requires accept(s.socket, SOCKADDR_STORAGE_SIZE).storage == SockAddrFromAsWritten(a).storage
    requires recvfrom(s.socket, AsI32(bufLen), RecvFlagsFrom(flags), SOCKADDR_STORAGE_SIZE).ret >= 0
    requires recvfrom(s.socket, AsI32(bufLen), RecvFlagsFrom(flags), SOCKADDR_STORAGE_SIZE).storage == SockAddrFromAsWritten(a).storage
    ensures Accept(s, accept).Ok? && Accept(s, accept).value.1 == a
    ensures RecvFrom(s, bufLen, flags, recvfrom).Ok? && RecvFrom(s, bufLen, flags, recvfrom).value.1 == a
  {
    CodecRoundTrip(a);
    TryFromIgnoresLength(Little, SockAddrFromAsWritten(a), accept(s.socket, SOCKADDR_STORAGE_SIZE).len);
    TryFromIgnoresLength(Little, SockAddrFromAsWritten(a),
                         recvfrom(s.socket, AsI32(bufLen), RecvFlagsFrom(flags), SOCKADDR_STORAGE_SIZE).len);
  }

  /** The decoder does not look at the declared length. */
  lemma TryFromIgnoresLength(order: Endian, sa: SockAddr, len: int)
    ensures TryFrom(order, SockAddr(sa.storage, len)) == TryFrom(order, sa)
  {
  }

  /** Every group of an IPv6 address with its two bytes exchanged. */
  function SwapGroups(a: AddrIp6): (r: AddrIp6)
    ensures forall i :: 0 <= i < 8 ==> Group(r, i) == Swap16(Group(a, i))
  {
    AddrIp6(Swap16(a.n0), Swap16(a.n1), Swap16(a.n2), Swap16(a.n3),
            Swap16(a.h0), Swap16(a.h1), Swap16(a.h2), Swap16(a.h3))
  }

  /** Groups laid out in network order and read in host order come back byte-swapped. */
  lemma NetworkOrderReadAsHostOrder(a: AddrIp6)
    ensures AddrIp6From(Little, In6AddrFrom(Big, a)) == SwapGroups(a)
  {
    var e := In6AddrFrom(Big, a);
    var read := AddrIp6From(Little, e);
    forall i | 0 <= i < 8 ensures Group(read, i) == Group(SwapGroups(a), i) {
      assert e[2 * i..2 * i + 2] == BeBytes16(Group(a, i));
    }
    GroupsDetermineAddr(read, SwapGroups(a));
  }

  /** Winsock itself writes IPv6 names in network order; `addr_local` and `addr_remote` read
      them in host order and so report every group byte-swapped (`::1` comes back as
      `::100`). An IPv4 name comes back intact. */
  lemma NameFromWinsockSwapped(s: RawOsSocket, a: Addr, getname: (Winx.Socket, int) -> Winx.AddrReply)
    requires getname(s.socket, SOCKADDR_STORAGE_SIZE).ret != Winx.SOCKET_ERROR
    requires getname(s.socket, SOCKADDR_STORAGE_SIZE).storage == SockAddrFrom(a).storage
    ensures a.Ip4? ==> AddrLocal(s, getname) == Ok(a)
    ensures a.Ip6? ==> AddrLocal(s, getname) == Ok(Ip6(AddrIp6Port(SwapGroups(a.ip6.addr), a.ip6.port)))
    ensures AddrRemote(s, getname) == AddrLocal(s, getname)
  {
    if a.Ip6? {
      NetworkOrderReadAsHostOrder(a.ip6.addr);
    }
  }
}
