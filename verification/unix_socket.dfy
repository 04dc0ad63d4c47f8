/** The unix back end: conversion of wire addresses and flags to the native forms handed to the
    socket system calls, and the raw descriptor wrapper
    (crates/wasi-common/src/sys/unix/ossocket.rs). Native family values and the layout are
    Linux's; the native byte order of the host is a parameter, because only the family field is
    stored in it. */
module UnixSocket {

  import opened Bytes
  import opened Wrappers
  import opened Types
  import opened Native

  /** `yanix::socket::AddressFamily`. */
  datatype NativeFamily = InetAddr | Inet6Addr

  /** `yanix::socket::SockType`. */
  datatype NativeSockType = Stream | Datagram | SeqPacket | Raw | Rdm

  /** `From<AddressFamily>`: total and injective (it has `FamilyBack` as left inverse). */
  function FamilyFrom(af: AddressFamily): (r: NativeFamily)
    ensures FamilyBack(r) == af
  {
    match af
    case Inet4 => InetAddr
    case Inet6 => Inet6Addr
  }

  function FamilyBack(f: NativeFamily): AddressFamily {
    match f
    case InetAddr => Inet4
    case Inet6Addr => Inet6
  }

  /** `From<SockType>`: total, injective, and never yields the three native types the guest
      cannot ask for. */
  function SockTypeFrom(t: SockType): (r: NativeSockType)
    ensures r.Stream? || r.Datagram?
    ensures SockTypeBack(r) == Some(t)
  {
    match t
    case SocketStream => Stream
    case SocketDgram => Datagram
  }

  function SockTypeBack(t: NativeSockType): Option<SockType> {
    match t
    case Stream => Some(SockType.SocketStream)
    case Datagram => Some(SockType.SocketDgram)
    case _ => None
  }

  /** `PF_INET` and `PF_INET6` on Linux. */
  const PF_INET: u16 := 2
  const PF_INET6: u16 := 10

  function FamilyValue(f: NativeFamily): u16 {
    match f
    case InetAddr => PF_INET
    case Inet6Addr => PF_INET6
  }

  /** `From<&AddrIp6> for In6Addr`: byte `2i` is `g_i >> 8` and byte `2i+1` is `g_i & 0xff`. */
  function In6AddrFrom(a: AddrIp6): (r: seq<u8>)
    ensures |r| == 16
    ensures forall i :: 0 <= i < 8 ==> r[2 * i] as int * 0x100 + r[2 * i + 1] == Group(a, i)
  {
    [a.n0 / 0x100, a.n0 % 0x100, a.n1 / 0x100, a.n1 % 0x100,
     a.n2 / 0x100, a.n2 % 0x100, a.n3 / 0x100, a.n3 % 0x100,
     a.h0 / 0x100, a.h0 % 0x100, a.h1 / 0x100, a.h1 % 0x100,
     a.h2 / 0x100, a.h2 % 0x100, a.h3 / 0x100, a.h3 % 0x100]
  }

  /** The address bytes determine the IPv6 address. */
  lemma In6AddrFromInjective(a: AddrIp6, b: AddrIp6)
    requires In6AddrFrom(a) == In6AddrFrom(b)
    ensures a == b
  {
    forall i | 0 <= i < 8 ensures Group(a, i) == Group(b, i) {
      assert In6AddrFrom(a)[2 * i] == In6AddrFrom(b)[2 * i];
      assert In6AddrFrom(a)[2 * i + 1] == In6AddrFrom(b)[2 * i + 1];
    }
    GroupsDetermineAddr(a, b);
  }

  /** The storage the encoder writes for `a`, on a host of byte order `host`. */
  function EncodeStorage(host: Endian, a: Addr): Storage {
    match a
    case Ip4(p) => In4Storage(NativeBytes16(host, PF_INET), p.port, InAddrFrom(p.addr))
    case Ip6(p) => In6Storage(NativeBytes16(host, PF_INET6), p.port, In6AddrFrom(p.addr))
  }

  /** `From<&Addr> for SockAddr`, as written: the family from the variant in host order, the
      port in network order, the address bytes, all other storage zero, and a declared length
      of `size_of::<sockaddr_in>()` for both variants. */
  function SockAddrFromAsWritten(host: Endian, a: Addr): (r: SockAddr)
    ensures r.len == SOCKADDR_IN_SIZE
    ensures FromNative16(host, r.storage[..2]) == if a.Ip4? then PF_INET else PF_INET6
    ensures FromBe16(r.storage[2..4]) == if a.Ip4? then a.ip4.port else a.ip6.port
    ensures a.Ip4? ==> r.storage[4..8] == [a.ip4.addr.n0, a.ip4.addr.n1, a.ip4.addr.h0, a.ip4.addr.h1]
    ensures a.Ip4? ==> forall i :: 8 <= i < SOCKADDR_STORAGE_SIZE ==> r.storage[i] == 0
    ensures a.Ip6? ==> forall i :: 0 <= i < 8 ==>
      r.storage[8 + 2 * i] as int * 0x100 + r.storage[9 + 2 * i] == Group(a.ip6.addr, i)
    ensures a.Ip6? ==> forall i :: (4 <= i < 8 || 24 <= i < SOCKADDR_STORAGE_SIZE) ==> r.storage[i] == 0
  {
    Ip6Layout(host, a);
    SockAddr(EncodeStorage(host, a), SOCKADDR_IN_SIZE)
  }

  lemma Ip6Layout(host: Endian, a: Addr)
    ensures a.Ip6? ==> forall i :: 0 <= i < 8 ==>
      EncodeStorage(host, a)[8 + 2 * i] as int * 0x100 + EncodeStorage(host, a)[9 + 2 * i] == Group(a.ip6.addr, i)
  {
    if a.Ip6? {
      var s := EncodeStorage(host, a);
      assert s[8..24] == In6AddrFrom(a.ip6.addr);
      assert forall i :: 0 <= i < 8 ==> s[8 + 2 * i] == s[8..24][2 * i] && s[9 + 2 * i] == s[8..24][2 * i + 1];
    }
  }

  /** The encoder with the length the IPv6 variant needs, `size_of::<sockaddr_in6>()`; the
      storage is the same as written. */
  function SockAddrFrom(host: Endian, a: Addr): (r: SockAddr)
    ensures r.storage == SockAddrFromAsWritten(host, a).storage
    ensures r.len == if a.Ip4? then SOCKADDR_IN_SIZE else SOCKADDR_IN6_SIZE
  {
    SockAddr(EncodeStorage(host, a), if a.Ip4? then SOCKADDR_IN_SIZE else SOCKADDR_IN6_SIZE)
  }

  /** The storage alone determines the wire address: the encoder is injective. */
  lemma {:induction false} EncodeStorageInjective(host: Endian, a: Addr, b: Addr)
    requires EncodeStorage(host, a) == EncodeStorage(host, b)
    ensures a == b
  {
    var sa := SockAddrFromAsWritten(host, a);
    var sb := SockAddrFromAsWritten(host, b);
    assert sa.storage == sb.storage;
    assert PF_INET != PF_INET6;
    assert a.Ip4? == b.Ip4?;
    FromNative16Injective(Big, sa.storage[2..4], BeBytes16(if a.Ip4? then a.ip4.port else a.ip6.port));
    if a.Ip4? {
      assert a.ip4.port == b.ip4.port;
      assert a.ip4.addr == b.ip4.addr;
    } else {
      assert a.ip6.port == b.ip6.port;
      forall i | 0 <= i < 8 ensures Group(a.ip6.addr, i) == Group(b.ip6.addr, i) {
      }
      GroupsDetermineAddr(a.ip6.addr, b.ip6.addr);
    }
  }

  /** With the length as written, the OS reads only the first 16 bytes, which for an IPv6
      address stop in the middle of its address field: `::` and `::1` on the same port are
      declared as the same 16 bytes. */
  lemma Ip6LengthAsWrittenLosesGroups(host: Endian)
    ensures var a := Ip6(AddrIp6Port(AddrIp6(0, 0, 0, 0, 0, 0, 0, 0), 80));
            var b := Ip6(AddrIp6Port(AddrIp6(0, 0, 0, 0, 0, 0, 0, 1), 80));
            var ea := SockAddrFromAsWritten(host, a);
            var eb := SockAddrFromAsWritten(host, b);
            a != b && ea.len == eb.len == 16 && ea.storage[..ea.len] == eb.storage[..eb.len]
  {
    var a := Ip6(AddrIp6Port(AddrIp6(0, 0, 0, 0, 0, 0, 0, 0), 80));
    var b := Ip6(AddrIp6Port(AddrIp6(0, 0, 0, 0, 0, 0, 0, 1), 80));
    var sa := EncodeStorage(host, a);
    var sb := EncodeStorage(host, b);
    assert sa[..16] == sa[..2] + sa[2..4] + sa[4..8] + sa[8..24][..8];
    assert sb[..16] == sb[..2] + sb[2..4] + sb[4..8] + sb[8..24][..8];
    assert sa[4..8] == sb[4..8] by {
      assert forall i :: 4 <= i < 8 ==> sa[i] == 0 && sb[i] == 0;
    }
  }

  /** With the corrected length the declared bytes determine the address, for both
      variants. */
  lemma {:induction false} DeclaredBytesDetermineAddr(host: Endian, a: Addr, b: Addr)
    requires SockAddrFrom(host, a).len == SockAddrFrom(host, b).len
    requires SockAddrFrom(host, a).storage[..SockAddrFrom(host, a).len]
          == SockAddrFrom(host, b).storage[..SockAddrFrom(host, b).len]
    ensures a == b
  {
    var sa := EncodeStorage(host, a);
    var sb := EncodeStorage(host, b);
    var n := SockAddrFrom(host, a).len;
    assert a.Ip4? == b.Ip4?;
    forall i | n <= i < SOCKADDR_STORAGE_SIZE ensures sa[i] == sb[i] {
      var ea := SockAddrFromAsWritten(host, a);
      var eb := SockAddrFromAsWritten(host, b);
      assert ea.storage[i] == 0 && eb.storage[i] == 0;
    }
    forall i | 0 <= i < n ensures sa[i] == sb[i] {
      assert sa[..n][i] == sb[..n][i];
    }
    assert sa == sb;
    EncodeStorageInjective(host, a, b);
  }

  /** `RawOsSocket`: the raw descriptor. */
  datatype RawOsSocket = RawOsSocket(fd: int)

  /** `RawOsSocket::try_clone`: never fails, and wraps the very same descriptor; it aliases,
      it does not duplicate. */
  function TryClone(s: RawOsSocket): (r: Result<RawOsSocket, IoError>)
    ensures r.Ok? && r.value.fd == s.fd
  {
    Ok(RawOsSocket(s.fd))
  }

  /** `RawOsSocket::new`: the OS's `socket` (with no protocol) is asked for the converted family
      and type; its error is passed on, its descriptor wrapped. */
  function New(af: AddressFamily, t: SockType, socket: (NativeFamily, NativeSockType) -> Result<int, IoError>)
    : (r: Result<RawOsSocket, IoError>)
    ensures var os := socket(FamilyFrom(af), SockTypeFrom(t));
            (r.Ok? <==> os.Ok?) && (r.Ok? ==> r.value.fd == os.value) && (r.Err? ==> r.error == os.error)
  {
    match socket(FamilyFrom(af), SockTypeFrom(t))
    case Ok(fd) => Ok(RawOsSocket(fd))
    case Err(e) => Err(e)
  }

  /** Distinct requests reach `socket` as distinct arguments. */
  lemma NewKeepsRequestsApart(af: AddressFamily, t: SockType, af2: AddressFamily, t2: SockType)
    requires FamilyFrom(af) == FamilyFrom(af2) && SockTypeFrom(t) == SockTypeFrom(t2)
    ensures af == af2 && t == t2
  {
  }

  /** The `sockaddr` handed to `connect` for `a`, as the code lays it out: a declared length of
      `size_of::<sockaddr_in>()`, the family in host order, the port in network order, the
      address bytes, and zeros elsewhere. */
  predicate LaidOutAsWritten(host: Endian, sa: SockAddr, a: Addr) {
    && sa.len == SOCKADDR_IN_SIZE
    && FromNative16(host, sa.storage[..2]) == (if a.Ip4? then PF_INET else PF_INET6)
    && FromBe16(sa.storage[2..4]) == (if a.Ip4? then a.ip4.port else a.ip6.port)
    && (a.Ip4? ==>
          && sa.storage[4..8] == [a.ip4.addr.n0, a.ip4.addr.n1, a.ip4.addr.h0, a.ip4.addr.h1]
          && forall i :: 8 <= i < SOCKADDR_STORAGE_SIZE ==> sa.storage[i] == 0)
    && (a.Ip6? ==>
          && (forall i :: 0 <= i < 8 ==> FromBe16(sa.storage[8 + 2 * i..10 + 2 * i]) == Group(a.ip6.addr, i))
          && (forall i :: 4 <= i < 8 ==> sa.storage[i] == 0)
          && forall i :: 24 <= i < SOCKADDR_STORAGE_SIZE ==> sa.storage[i] == 0)
  }

  lemma EncoderLaysOut(host: Endian, a: Addr)
    ensures LaidOutAsWritten(host, SockAddrFromAsWritten(host, a), a)
  {
  }

  /** The layout leaves no freedom: one `sockaddr` fits it, so `connect` is asked exactly one
      thing for each address. */
  lemma {:induction false} LaidOutUnique(host: Endian, x: SockAddr, y: SockAddr, a: Addr)
    requires LaidOutAsWritten(host, x, a) && LaidOutAsWritten(host, y, a)
    ensures x == y
  {
    FromNative16Injective(host, x.storage[..2], y.storage[..2]);
    FromNative16Injective(Big, x.storage[2..4], y.storage[2..4]);
    forall j | 0 <= j < SOCKADDR_STORAGE_SIZE ensures x.storage[j] == y.storage[j] {
      if j < 2 {
        assert x.storage[..2][j] == y.storage[..2][j];
      } else if j < 4 {
        assert x.storage[2..4][j - 2] == y.storage[2..4][j - 2];
      } else if a.Ip4? && j < 8 {
        assert x.storage[4..8][j - 4] == y.storage[4..8][j - 4];
      } else if a.Ip6? && 8 <= j < 24 {
        var i := (j - 8) / 2;
        assert 0 <= i < 8;
        assert FromBe16(x.storage[8 + 2 * i..10 + 2 * i]) == Group(a.ip6.addr, i) == FromBe16(y.storage[8 + 2 * i..10 + 2 * i]);
        FromNative16Injective(Big, x.storage[8 + 2 * i..10 + 2 * i], y.storage[8 + 2 * i..10 + 2 * i]);
        assert x.storage[8 + 2 * i..10 + 2 * i][j - 8 - 2 * i] == y.storage[8 + 2 * i..10 + 2 * i][j - 8 - 2 * i];
      }
    }
  }

  /** `RawOsSocket::connect`: the OS receives the address laid out as written, with its
      answer passed back unchanged. */
  function Connect(host: Endian, s: RawOsSocket, a: Addr, connect: (int, SockAddr) -> Result<(), IoError>)
    : (r: Result<(), IoError>)
    ensures exists sa :: LaidOutAsWritten(host, sa, a) && r == connect(s.fd, sa)
  {
    EncoderLaysOut(host, a);
    connect(s.fd, SockAddrFromAsWritten(host, a))
  }

  /** Any two receive-flag sets that agree on the three flags are the same set. */
  lemma RecvFlagSetsAgree(g: set<RecvFlag>)
    ensures forall f: set<RecvFlag> ::
      (Peek in f <==> Peek in g) && (WaitAll in f <==> WaitAll in g) && (Oob in f <==> Oob in g) ==> f == g
  {
    forall f: set<RecvFlag> | (Peek in f <==> Peek in g) && (WaitAll in f <==> WaitAll in g) && (Oob in f <==> Oob in g)
      ensures f == g
    {
      forall x ensures x in f <==> x in g {
        match x
        case Oob =>
        case Peek =>
        case WaitAll =>
      }
    }
  }

  /** `RawOsSocket::recv`: the OS is asked for peek and wait-all exactly when the guest set
      them, never for out-of-band data, and its answer is passed back unchanged. */
  function Recv(s: RawOsSocket, bufLen: nat, flags: Riflags, recv: (int, nat, set<RecvFlag>) -> Result<nat, IoError>)
    : (r: Result<nat, IoError>)
    ensures forall f: set<RecvFlag> ::
      ((Peek in f <==> flags & RECV_PEEK == RECV_PEEK) && (WaitAll in f <==> flags & RECV_WAITALL == RECV_WAITALL)
       && Oob !in f) ==> r == recv(s.fd, bufLen, f)
  {
    RecvFlagSetsAgree(RecvFlagsOf(flags));
    recv(s.fd, bufLen, RecvFlagsOf(flags))
  }

  /** `RawOsSocket::shutdown`: the flags are converted first; when neither RD nor WR is set the
      call fails with `InvalidInput` whatever the OS would have said, because the OS is never
      asked. */
  function Shutdown(s: RawOsSocket, how: Sdflags, shutdown: (int, ShutdownMode) -> Result<(), IoError>)
    : (r: Result<(), IoError>)
    ensures how & (RD | WR) == 0 ==> r == Err(InvalidInput)
    ensures how & (RD | WR) != 0 ==> r == shutdown(s.fd, ShutdownModeOf(how).value)
  {
    var mode :- ShutdownModeOf(how);
    shutdown(s.fd, mode)
  }
}
