/** The Winsock helpers (crates/wasi-common/winx/src/socket.rs): classification of Winsock
    return codes, the literal native encodings, the once-only library start-up, and the thin
    wrappers around each Winsock call. Every Winsock call is a function parameter: it receives
    exactly the arguments the wrapper passes and returns what the OS answers, together with
    what `WSAGetLastError` would report right after. Constants are those of the Winsock
    headers on a 64-bit target. */
module Winx {

  import opened Bytes
  import opened Wrappers
  import opened Types
  import opened Native

  /** `SOCKET`, an unsigned handle as wide as a machine word. */
  type Socket = usize

  const SOCKET_ERROR: i32 := -1
  /** `INVALID_SOCKET`, all bits set. */
  const INVALID_SOCKET: usize := 0xFFFF_FFFF_FFFF_FFFF

  /** A Winsock answer with an `int` status. */
  datatype Reply = Reply(ret: i32, lastError: i32)

  /** `from_socket_error`: the status is an error exactly when it is `SOCKET_ERROR`; then the
      last Winsock error is reported, otherwise the status is returned unchanged. */
  function FromSocketError(t: i32, lastError: i32): (r: Result<i32, IoError>)
    ensures r.Err? <==> t == SOCKET_ERROR
    ensures r.Ok? ==> r.value == t
    ensures r.Err? ==> r.error == OsError(lastError)
  {
    if t == SOCKET_ERROR then Err(OsError(lastError)) else Ok(t)
  }

  /** `from_valid_socket`: a socket handle is good exactly when it is not `INVALID_SOCKET`. */
  function FromValidSocket(t: Socket, lastError: i32): (r: Result<Socket, IoError>)
    ensures r.Ok? <==> t != INVALID_SOCKET
    ensures r.Ok? ==> r.value == t
    ensures r.Err? ==> r.error == OsError(lastError)
  {
    if t != INVALID_SOCKET then Ok(t) else Err(OsError(lastError))
  }

  /** `AddressFamily`, with the values `AF_INET` and `AF_INET6`. */
  datatype WinFamily = InetAddr | Inet6Addr

  const AF_INET: i32 := 2
  const AF_INET6: i32 := 23

  function FamilyValue(f: WinFamily): (r: i32)
    ensures r == AF_INET || r == AF_INET6
    ensures FamilyOfValue(r) == Some(f)
  {
    match f
    case InetAddr => AF_INET
    case Inet6Addr => AF_INET6
  }

  function FamilyOfValue(v: int): Option<WinFamily> {
    if v == AF_INET then Some(InetAddr) else if v == AF_INET6 then Some(Inet6Addr) else None
  }

  /** `SockType`, with the values of `SOCK_STREAM` .. `SOCK_SEQPACKET`. */
  datatype WinSockType = Stream | Datagram | SeqPacket | Raw | Rdm

  function SockTypeValue(t: WinSockType): (r: i32)
    ensures 1 <= r <= 5
    ensures SockTypeOfValue(r) == Some(t)
  {
    match t
    case Stream => 1
    case Datagram => 2
    case Raw => 3
    case Rdm => 4
    case SeqPacket => 5
  }

  function SockTypeOfValue(v: int): Option<WinSockType> {
    if v == 1 then Some(Stream) else if v == 2 then Some(Datagram) else if v == 3 then Some(Raw)
    else if v == 4 then Some(Rdm) else if v == 5 then Some(SeqPacket) else None
  }

  /** `SockProtocol`, with the values of `IPPROTO_TCP` and `IPPROTO_UDP`. */
  datatype SockProtocol = Tcp | Udp

  /** The protocol argument of `socket`: none is 0, a named protocol its own value; distinct
      choices give distinct arguments. */
  function ProtocolValue(p: Option<SockProtocol>): (r: i32)
    ensures r == 0 <==> p.None?
    ensures ProtocolOfValue(r) == p
  {
    match p
    case None => 0
    case Some(Tcp) => 6
    case Some(Udp) => 17
  }

  function ProtocolOfValue(v: int): Option<SockProtocol> {
    if v == 6 then Some(Tcp) else if v == 17 then Some(Udp) else None
  }

  /** The `RecvFlags` and `SendFlags` bits (`c_int`) as the helpers define them. */
  const RECV_FLAGS_OOB: bv32 := 0x1
  const RECV_FLAGS_PEEK: bv32 := 0x2
  const RECV_FLAGS_WAIT_ALL: bv32 := 0x4
  const SEND_FLAGS_OOB: bv32 := 0x1
  const SEND_FLAGS_DONTROUTE: bv32 := 0x4
  /** `SendFlags::empty()`. */
  const SEND_FLAGS_EMPTY: bv32 := 0

  /** The message flags of the Winsock headers that `recv` interprets. */
  const MSG_OOB: bv32 := 0x1
  const MSG_PEEK: bv32 := 0x2
  const MSG_DONTROUTE: bv32 := 0x4
  const MSG_WAITALL: bv32 := 0x8

  /** The bits of a set of receive flags, with `WAIT_ALL` as the helpers define it. */
  function RecvFlagsBitsAsWritten(s: set<RecvFlag>): (r: bv32)
    ensures r & RECV_FLAGS_OOB == RECV_FLAGS_OOB <==> Oob in s
    ensures r & RECV_FLAGS_PEEK == RECV_FLAGS_PEEK <==> Peek in s
    ensures r & RECV_FLAGS_WAIT_ALL == RECV_FLAGS_WAIT_ALL <==> WaitAll in s
  {
    (if Oob in s then RECV_FLAGS_OOB else 0) | (if Peek in s then RECV_FLAGS_PEEK else 0)
      | (if WaitAll in s then RECV_FLAGS_WAIT_ALL else 0)
  }

  /** `RecvFlags::WAIT_ALL` is the bit Winsock reads as `MSG_DONTROUTE`: a wait-all request
      reaches `recv` as "do not route", and `MSG_WAITALL` is never set. */
  lemma WaitAllSentAsDontRoute(s: set<RecvFlag>)
    requires WaitAll in s
    ensures RecvFlagsBitsAsWritten(s) & MSG_DONTROUTE == MSG_DONTROUTE
    ensures RecvFlagsBitsAsWritten(s) & MSG_WAITALL == 0
  {
  }

  /** The bits of a set of receive flags, each flag as the Winsock header value. */
  function RecvFlagsBits(s: set<RecvFlag>): (r: bv32)
    ensures r & MSG_OOB == MSG_OOB <==> Oob in s
    ensures r & MSG_PEEK == MSG_PEEK <==> Peek in s
    ensures r & MSG_WAITALL == MSG_WAITALL <==> WaitAll in s
    ensures r & !(MSG_OOB | MSG_PEEK | MSG_WAITALL) == 0
  {
    (if Oob in s then MSG_OOB else 0) | (if Peek in s then MSG_PEEK else 0)
      | (if WaitAll in s then MSG_WAITALL else 0)
  }

  /** The receive flags a set of `recv` bits asks for. */
  function RecvFlagsOfBits(bits: bv32): set<RecvFlag> {
    (if bits & MSG_OOB == MSG_OOB then {Oob} else {})
      + (if bits & MSG_PEEK == MSG_PEEK then {Peek} else {})
      + (if bits & MSG_WAITALL == MSG_WAITALL then {WaitAll} else {})
  }

  /** Reading the bits back gives the flags that were asked for: distinct flag sets reach
      `recv` as distinct bits. */
  lemma RecvFlagsBitsRoundTrip(s: set<RecvFlag>)
    ensures RecvFlagsOfBits(RecvFlagsBits(s)) == s
  {
    var r := RecvFlagsBits(s);
    forall f ensures f in RecvFlagsOfBits(r) <==> f in s {
      match f
      case Oob =>
      case Peek =>
      case WaitAll =>
    }
  }

  /** `ShutdownMode` as the `how` argument of `shutdown`: Read 0, Write 1, Both 2. */
  function ShutdownModeValue(m: ShutdownMode): (r: i32)
    ensures 0 <= r <= 2
    ensures ShutdownModeOfValue(r) == Some(m)
  {
    match m
    case Read => 0
    case Write => 1
    case Both => 2
  }

  function ShutdownModeOfValue(v: int): Option<ShutdownMode> {
    if v == 0 then Some(Read) else if v == 1 then Some(Write) else if v == 2 then Some(Both) else None
  }

  // ---------------------------------------------------------------------------------------
  // Library start-up and `socket`

  /** The state of the `Once` guarding `WSAStartup`. */
  datatype Once = Incomplete | Complete | Poisoned

  /** The Winsock calls whose order matters. */
  datatype WinsockCall =
    | WsaStartup(version: int)
    | WsaSocketW(af: i32, socketType: i32, protocol: i32, flags: int)

  /** The process-wide start-up flag and the calls made so far. */
  datatype Winsock = Winsock(once: Once, calls: seq<WinsockCall>)

  const FRESH: Winsock := Winsock(Incomplete, [])

  /** Version 2.2, as `WSAStartup` expects it. */
  const WSA_VERSION: int := 0x202
  const WSA_FLAG_OVERLAPPED: int := 0x01

  /** A computation that either returns or panics. */
  datatype Outcome<T> = Returned(value: T) | Panicked

  datatype InitStep = InitStep(state: Winsock, panicked: bool)

  /** `init`: the first call runs `WSAStartup(2.2)` and panics (poisoning the `Once`) when it
      does not return 0; later calls do nothing, or panic again once poisoned. */
  function Init(w: Winsock, startupRet: i32): (s: InitStep)
    ensures s.state.once != Incomplete
    ensures !s.panicked <==> s.state.once == Complete
    ensures w.once == Incomplete ==> s.state.calls == w.calls + [WsaStartup(WSA_VERSION)]
    ensures w.once != Incomplete ==> s.state == w
  {
    match w.once
    case Incomplete =>
      var calls := w.calls + [WsaStartup(WSA_VERSION)];
      if startupRet == 0 then InitStep(Winsock(Complete, calls), false)
      else InitStep(Winsock(Poisoned, calls), true)
    case Complete => InitStep(w, false)
    case Poisoned => InitStep(w, true)
  }

  /** What the OS does for `socket`: the start-up status, the handle `WSASocketW` returns for
      its arguments, and the last error. */
  datatype SocketOs = SocketOs(startupRet: i32, wsaSocket: (i32, i32, i32) -> Socket, lastError: i32)

  datatype SocketStep = SocketStep(state: Winsock, outcome: Outcome<Result<Socket, IoError>>)

  /** `socket`: maps the protocol, runs `init`, then (unless `init` panicked) calls
      `WSASocketW` with the family, type, protocol and `WSA_FLAG_OVERLAPPED`. */
  function SocketCall(w: Winsock, af: WinFamily, t: WinSockType, p: Option<SockProtocol>, os: SocketOs)
    : (s: SocketStep)
    ensures s.state.once != Incomplete
    ensures s.outcome.Returned? ==>
      && |s.state.calls| == |w.calls| + (if w.once == Incomplete then 2 else 1)
      && s.state.calls[|s.state.calls| - 1] == WsaSocketW(FamilyValue(af), SockTypeValue(t), ProtocolValue(p), WSA_FLAG_OVERLAPPED)
      && s.outcome.value == FromValidSocket(os.wsaSocket(FamilyValue(af), SockTypeValue(t), ProtocolValue(p)), os.lastError)
    ensures s.outcome.Panicked? <==> Init(w, os.startupRet).panicked
  {
    var protocol := ProtocolValue(p);
    var init := Init(w, os.startupRet);
    if init.panicked then SocketStep(init.state, Panicked)
    else
      var call := WsaSocketW(FamilyValue(af), SockTypeValue(t), protocol, WSA_FLAG_OVERLAPPED);
      var handle := os.wsaSocket(FamilyValue(af), SockTypeValue(t), protocol);
      SocketStep(Winsock(init.state.once, init.state.calls + [call]), Returned(FromValidSocket(handle, os.lastError)))
  }

  /** The start-up discipline: no call before start-up; once started, the first call is the
      one `WSAStartup` and every later call is a `WSASocketW`; a failed start-up is the only
      call. */
  predicate Ordered(w: Winsock) {
    && (w.once == Incomplete <==> |w.calls| == 0)
    && (|w.calls| > 0 ==> w.calls[0] == WsaStartup(WSA_VERSION))
    && (forall i :: 1 <= i < |w.calls| ==> w.calls[i].WsaSocketW?)
    && (w.once == Poisoned ==> |w.calls| == 1)
  }

  lemma SocketCallKeepsOrder(w: Winsock, af: WinFamily, t: WinSockType, p: Option<SockProtocol>, os: SocketOs)
    requires Ordered(w)
    ensures Ordered(SocketCall(w, af, t, p, os).state)
  {
    var init := Init(w, os.startupRet);
    assert Ordered(init.state);
  }

  datatype SocketRequest = SocketRequest(af: WinFamily, socketType: WinSockType, protocol: Option<SockProtocol>)

  /** A sequence of `socket` calls, each answered by `os`, from state `w`. */
  function RunSockets(w: Winsock, reqs: seq<SocketRequest>, os: SocketOs): Winsock
    decreases |reqs|
  {
    if |reqs| == 0 then w
    else RunSockets(SocketCall(w, reqs[0].af, reqs[0].socketType, reqs[0].protocol, os).state, reqs[1..], os)
  }

  lemma {:induction false} RunSocketsKeepsOrder(w: Winsock, reqs: seq<SocketRequest>, os: SocketOs)
    requires Ordered(w)
    ensures Ordered(RunSockets(w, reqs, os))
    decreases |reqs|
  {
    if |reqs| > 0 {
      SocketCallKeepsOrder(w, reqs[0].af, reqs[0].socketType, reqs[0].protocol, os);
      RunSocketsKeepsOrder(SocketCall(w, reqs[0].af, reqs[0].socketType, reqs[0].protocol, os).state, reqs[1..], os);
    }
  }

  function StartupCount(calls: seq<WinsockCall>): nat {
    if |calls| == 0 then 0 else (if calls[0].WsaStartup? then 1 else 0) + StartupCount(calls[1..])
  }

  lemma {:induction false} NoStartupAfterFirst(calls: seq<WinsockCall>)
    requires forall i :: 0 <= i < |calls| ==> calls[i].WsaSocketW?
    ensures StartupCount(calls) == 0
    decreases |calls|
  {
    if |calls| > 0 {
      NoStartupAfterFirst(calls[1..]);
    }
  }

  /** However many sockets a process opens, `WSAStartup` runs at most once, and it runs before
      every `WSASocketW`. */
  lemma StartupAtMostOnce(reqs: seq<SocketRequest>, os: SocketOs)
    ensures var w := RunSockets(FRESH, reqs, os);
            && StartupCount(w.calls) <= 1
            && forall i :: 0 <= i < |w.calls| && w.calls[i].WsaSocketW? ==> i > 0 && w.calls[0].WsaStartup?
  {
    RunSocketsKeepsOrder(FRESH, reqs, os);
    var w := RunSockets(FRESH, reqs, os);
    if |w.calls| > 0 {
      NoStartupAfterFirst(w.calls[1..]);
    }
  }

  // ---------------------------------------------------------------------------------------
  // Thin wrappers

  /** `listen`: the backlog reaches the OS through `as c_int`, which truncates rather than
      clamps. */
  function Listen(fd: Socket, backlog: usize, listen: (Socket, i32) -> Reply): (r: Result<(), IoError>)
    ensures var reply := listen(fd, AsI32(backlog));
            (r.Ok? <==> reply.ret != SOCKET_ERROR) && (r.Err? ==> r.error == OsError(reply.lastError))
  {
    var reply := listen(fd, AsI32(backlog));
    var _ :- FromSocketError(reply.ret, reply.lastError);
    Ok(())
  }

  /** The answer of `accept`: the new handle, the bytes written to the zeroed storage, the
      length the OS wrote back, and the last error. */
  datatype AcceptReply = AcceptReply(socket: Socket, storage: Storage, len: i32, lastError: i32)

  /** The answer of a call with an `int` status that also fills an address buffer. */
  datatype AddrReply = AddrReply(ret: i32, storage: Storage, len: i32, lastError: i32)

  /** `accept`: the OS gets a length initialised to `size_of::<SOCKADDR_STORAGE>()`; on success
      the new handle and the address with the OS-updated length are returned. */
  function Accept(fd: Socket, accept: (Socket, int) -> AcceptReply): (r: Result<(Socket, SockAddr), IoError>)
    ensures var reply := accept(fd, SOCKADDR_STORAGE_SIZE);
            && (r.Ok? <==> reply.socket != INVALID_SOCKET)
            && (r.Ok? ==> r.value == (reply.socket, SockAddr(reply.storage, reply.len)))
            && (r.Err? ==> r.error == OsError(reply.lastError))
  {
    var reply := accept(fd, SOCKADDR_STORAGE_SIZE);
    var s :- FromValidSocket(reply.socket, reply.lastError);
    Ok((s, SockAddr(reply.storage, reply.len)))
  }

  /** `bind`: the OS sees the storage and its declared length. */
  function Bind(fd: Socket, addr: SockAddr, bind: (Socket, SockAddr) -> Reply): (r: Result<(), IoError>)
    ensures (r.Ok? <==> bind(fd, addr).ret != SOCKET_ERROR)
    ensures r.Err? ==> r.error == OsError(bind(fd, addr).lastError)
  {
    var reply := bind(fd, addr);
    var _ :- FromSocketError(reply.ret, reply.lastError);
    Ok(())
  }

  /** `connect`: the OS sees the storage and its declared length. */
  function Connect(fd: Socket, addr: SockAddr, connect: (Socket, SockAddr) -> Reply): (r: Result<(), IoError>)
    ensures (r.Ok? <==> connect(fd, addr).ret != SOCKET_ERROR)
    ensures r.Err? ==> r.error == OsError(connect(fd, addr).lastError)
  {
    var reply := connect(fd, addr);
    var _ :- FromSocketError(reply.ret, reply.lastError);
    Ok(())
  }

  /** `recv`: the buffer length reaches the OS through `as c_int`, the flags as their bits; a
      byte count is returned through `as usize`. */
  function Recv(fd: Socket, bufLen: nat, flags: bv32, recv: (Socket, i32, bv32) -> Reply): (r: Result<usize, IoError>)
    ensures var reply := recv(fd, AsI32(bufLen), flags);
            && (r.Ok? <==> reply.ret != SOCKET_ERROR)
            && (r.Ok? ==> r.value == AsUsize(reply.ret))
            && (r.Err? ==> r.error == OsError(reply.lastError))
  {
    var reply := recv(fd, AsI32(bufLen), flags);
    var n :- FromSocketError(reply.ret, reply.lastError);
    Ok(AsUsize(n))
  }

  /** For a buffer shorter than 2^31 bytes the casts are invisible: the OS sees the buffer
      length unchanged, and a non-negative count it returns is the count reported. */
  lemma RecvCountPassesThrough(fd: Socket, bufLen: nat, flags: bv32, recv: (Socket, i32, bv32) -> Reply)
    requires bufLen < 0x8000_0000
    requires recv(fd, bufLen, flags).ret >= 0
    ensures Recv(fd, bufLen, flags, recv) == Ok(recv(fd, bufLen, flags).ret)
  {
  }

  /** `recvfrom`: like `recv`, with the sender's address; the OS gets a length initialised to
      `size_of::<SOCKADDR_STORAGE>()` and the length it writes back is returned. */
  function RecvFrom(fd: Socket, bufLen: nat, flags: bv32, recvfrom: (Socket, i32, bv32, int) -> AddrReply)
    : (r: Result<(usize, SockAddr), IoError>)
    ensures var reply := recvfrom(fd, AsI32(bufLen), flags, SOCKADDR_STORAGE_SIZE);
            && (r.Ok? <==> reply.ret != SOCKET_ERROR)
            && (r.Ok? ==> r.value == (AsUsize(reply.ret), SockAddr(reply.storage, reply.len)))
            && (r.Err? ==> r.error == OsError(reply.lastError))
  {
    var reply := recvfrom(fd, AsI32(bufLen), flags, SOCKADDR_STORAGE_SIZE);
    var n :- FromSocketError(reply.ret, reply.lastError);
    Ok((AsUsize(n), SockAddr(reply.storage, reply.len)))
  }

  /** `send`: the buffer and its length through `as c_int`, the flags as their bits. */
  function Send(fd: Socket, buf: seq<u8>, flags: bv32, send: (Socket, seq<u8>, i32, bv32) -> Reply)
    : (r: Result<usize, IoError>)
    ensures var reply := send(fd, buf, AsI32(|buf|), flags);
            && (r.Ok? <==> reply.ret != SOCKET_ERROR)
            && (r.Ok? ==> r.value == AsUsize(reply.ret))
            && (r.Err? ==> r.error == OsError(reply.lastError))
  {
    var reply := send(fd, buf, AsI32(|buf|), flags);
    var n :- FromSocketError(reply.ret, reply.lastError);
    Ok(AsUsize(n))
  }

  /** `sendto`: as `send`, with the destination's storage and declared length. */
  function SendTo(fd: Socket, buf: seq<u8>, addr: SockAddr, flags: bv32, sendto: (Socket, seq<u8>, i32, bv32, SockAddr) -> Reply)
    : (r: Result<usize, IoError>)
    ensures var reply := sendto(fd, buf, AsI32(|buf|), flags, addr);
            && (r.Ok? <==> reply.ret != SOCKET_ERROR)
            && (r.Ok? ==> r.value == AsUsize(reply.ret))
            && (r.Err? ==> r.error == OsError(reply.lastError))
  {
    var reply := sendto(fd, buf, AsI32(|buf|), flags, addr);
    var n :- FromSocketError(reply.ret, reply.lastError);
    Ok(AsUsize(n))
  }

  /** Shared by `sock_name` and `peer_name`: a length initialised to
      `size_of::<SOCKADDR_STORAGE>()` goes in, the OS-updated length comes back. */
  function NameCall(fd: Socket, getname: (Socket, int) -> AddrReply): (r: Result<SockAddr, IoError>)
    ensures var reply := getname(fd, SOCKADDR_STORAGE_SIZE);
            && (r.Ok? <==> reply.ret != SOCKET_ERROR)
            && (r.Ok? ==> r.value == SockAddr(reply.storage, reply.len))
            && (r.Err? ==> r.error == OsError(reply.lastError))
  {
    var reply := getname(fd, SOCKADDR_STORAGE_SIZE);
    var _ :- FromSocketError(reply.ret, reply.lastError);
    Ok(SockAddr(reply.storage, reply.len))
  }

  /** `sock_name`, through `getsockname`. */
  function SockName(fd: Socket, getsockname: (Socket, int) -> AddrReply): (r: Result<SockAddr, IoError>)
    ensures var reply := getsockname(fd, SOCKADDR_STORAGE_SIZE);
            && (r.Ok? <==> reply.ret != SOCKET_ERROR)
            && (r.Ok? ==> r.value == SockAddr(reply.storage, reply.len))
            && (r.Err? ==> r.error == OsError(reply.lastError))
  {
    NameCall(fd, getsockname)
  }

  /** `peer_name`, through `getpeername`. */
  function PeerName(fd: Socket, getpeername: (Socket, int) -> AddrReply): (r: Result<SockAddr, IoError>)
    ensures var reply := getpeername(fd, SOCKADDR_STORAGE_SIZE);
            && (r.Ok? <==> reply.ret != SOCKET_ERROR)
            && (r.Ok? ==> r.value == SockAddr(reply.storage, reply.len))
            && (r.Err? ==> r.error == OsError(reply.lastError))
  {
    NameCall(fd, getpeername)
  }

  /** `shutdown`: the mode reaches the OS as its literal value. */
  function Shutdown(fd: Socket, how: ShutdownMode, shutdown: (Socket, i32) -> Reply): (r: Result<(), IoError>)
    ensures var reply := shutdown(fd, ShutdownModeValue(how));
            (r.Ok? <==> reply.ret != SOCKET_ERROR) && (r.Err? ==> r.error == OsError(reply.lastError))
  {
    var reply := shutdown(fd, ShutdownModeValue(how));
    var _ :- FromSocketError(reply.ret, reply.lastError);
    Ok(())
  }

  /** The `SOL_SOCKET` options the wrappers use. */
  datatype SockOpt = ReuseAddr | RcvBuf | SndBuf

  /** A `getsockopt` answer: the status, the `c_int` written to the option buffer, the last
      error. */
  datatype OptReply = OptReply(ret: i32, value: i32, lastError: i32)

  /** `set_reuse_addr`: the flag reaches the OS as the `c_int` 1 or 0. */
  function SetReuseAddr(fd: Socket, reuse: bool, setsockopt: (Socket, SockOpt, i32) -> Reply): (r: Result<(), IoError>)
    ensures var reply := setsockopt(fd, ReuseAddr, if reuse then 1 else 0);
            (r.Ok? <==> reply.ret != SOCKET_ERROR) && (r.Err? ==> r.error == OsError(reply.lastError))
  {
    var reply := setsockopt(fd, ReuseAddr, if reuse then 1 else 0);
    var _ :- FromSocketError(reply.ret, reply.lastError);
    Ok(())
  }

  /** `get_reuse_addr`: any non-zero option value reads as set. */
  function GetReuseAddr(fd: Socket, getsockopt: (Socket, SockOpt) -> OptReply): (r: Result<bool, IoError>)
    ensures var reply := getsockopt(fd, ReuseAddr);
            && (r.Ok? <==> reply.ret != SOCKET_ERROR)
            && (r.Ok? ==> (r.value <==> reply.value != 0))
            && (r.Err? ==> r.error == OsError(reply.lastError))
  {
    var reply := getsockopt(fd, ReuseAddr);
    var _ :- FromSocketError(reply.ret, reply.lastError);
    Ok(reply.value != 0)
  }

  /** The flag survives the round trip: when `getsockopt` reports the `c_int` that
      `set_reuse_addr` passed, `get_reuse_addr` returns the flag that was set. */
  lemma ReuseAddrRoundTrip(fd: Socket, reuse: bool, setsockopt: (Socket, SockOpt, i32) -> Reply,
                           getsockopt: (Socket, SockOpt) -> OptReply)
    requires SetReuseAddr(fd, reuse, setsockopt).Ok?
    requires getsockopt(fd, ReuseAddr).ret != SOCKET_ERROR
    requires getsockopt(fd, ReuseAddr).value == if reuse then 1 else 0
    ensures GetReuseAddr(fd, getsockopt) == Ok(reuse)
  {
  }

  /** `set_reuse_port`: Winsock has no such option; the call succeeds and does nothing. */
  function SetReusePort(fd: Socket, reuse: bool): (r: Result<(), IoError>)
    ensures r.Ok?
  {
    Ok(())
  }

  /** `get_reuse_port`: always reports the option as unset. */
  function GetReusePort(fd: Socket): (r: Result<bool, IoError>)
    ensures r.Ok? && !r.value
  {
    Ok(false)
  }

  /** Whatever is set through `set_reuse_port`, with success, `get_reuse_port` reads back
      `false`: the guest test that sets it to 1 and expects 1 back cannot pass on Windows. */
  lemma ReusePortNeverReadsBack(fd: Socket, reuse: bool)
    ensures SetReusePort(fd, reuse) == Ok(())
    ensures GetReusePort(fd) == Ok(false)
  {
  }

  /** `set_recv_buf_size` and `set_send_buf_size`: the `u32` size reaches the OS through
      `as c_int`. */
  function SetBufSize(fd: Socket, opt: SockOpt, size: u32, setsockopt: (Socket, SockOpt, i32) -> Reply)
    : (r: Result<(), IoError>)
    requires opt != ReuseAddr
    ensures var reply := setsockopt(fd, opt, AsI32(size));
            (r.Ok? <==> reply.ret != SOCKET_ERROR) && (r.Err? ==> r.error == OsError(reply.lastError))
  {
    var reply := setsockopt(fd, opt, AsI32(size));
    var _ :- FromSocketError(reply.ret, reply.lastError);
    Ok(())
  }

  /** `get_recv_buf_size` and `get_send_buf_size`: the `c_int` option value is returned through
      `as u32`. */
  function GetBufSize(fd: Socket, opt: SockOpt, getsockopt: (Socket, SockOpt) -> OptReply)
    : (r: Result<u32, IoError>)
    requires opt != ReuseAddr
    ensures var reply := getsockopt(fd, opt);
            && (r.Ok? <==> reply.ret != SOCKET_ERROR)
            && (r.Ok? ==> r.value == AsU32(reply.value))
            && (r.Err? ==> r.error == OsError(reply.lastError))
  {
    var reply := getsockopt(fd, opt);
    var v :- FromSocketError(reply.ret, reply.lastError);
    Ok(AsU32(reply.value))
  }

  /** The casts on the two sides cancel: when `getsockopt` reports the very `c_int` that
      `set_*_buf_size` passed for a `u32` size, `get_*_buf_size` returns that size. */
  lemma BufSizeCastsCancel(fd: Socket, opt: SockOpt, size: u32, getsockopt: (Socket, SockOpt) -> OptReply)
    requires opt != ReuseAddr
    requires getsockopt(fd, opt).ret != SOCKET_ERROR && getsockopt(fd, opt).value == AsI32(size)
    ensures GetBufSize(fd, opt, getsockopt) == Ok(size)
  {
    U32ThroughI32(size);
  }
}
