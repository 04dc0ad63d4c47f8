# Sandboxed sockets of wasi-common, modelled in Dafny

This project models the socket layer that Kong's fork of wasmtime adds to `wasi-common`:

- **Address pools** decide which endpoints a guest may reach.
  - A *fixed* pool lists exact socket addresses.
  - A *ranged* pool admits a CIDR network together with a half-open port range.
  - The *pool table* filters what the resolver returns and converts it to the wire `Addr`.
- **Per-platform back ends** translate wire addresses, receive flags and shutdown flags into what the unix and Winsock socket calls take.
- **`OsSocket`** is the handle that carries a socket's type and rights.
- **Winsock helpers** classify return codes, hold the literal flag encodings, start Winsock once, and wrap each call.

The modules follow the source:

| module | file | what it holds |
|---|---|---|
| `Bytes` | `bytes.dfy` | machine integers, byte images, Rust `as` casts |
| `Types` | `types.dfy` | the WASI wire types (`Addr`, flags, rights) |
| `Net` | `net.dfy` | `std::net` socket addresses and `ipnet` CIDR containment |
| `AddressPools` | `address_pools.dfy` | `addr.rs` |
| `Native` | `native.dfy` | the storage layout and conversions both back ends share |
| `UnixSocket` | `unix_socket.dfy` | the unix `ossocket.rs` |
| `Winx` | `winx.dfy` | `winx/src/socket.rs` |
| `WindowsSocket` | `windows_socket.dfy` | the Windows `ossocket.rs` |
| `OsSockets` | `os_socket.dfy` | `sys/ossocket.rs` |
| `Platforms` | `platforms.dfy` | lemmas relating the two back ends |

A native socket address is a 128-byte `sockaddr_storage` image plus the length declared to the OS. `x.to_be()` stored in memory is modelled as the big-endian byte image of `x`. The 16-bit family field is stored in host byte order:

- The unix back end takes the host byte order as a parameter.
- Windows hosts are little-endian.

Every system call is a function parameter, applied to the arguments the code hands it, encoded as the code encodes them; it returns the OS's answer. On Windows that answer also carries what `WSAGetLastError` would report. A `Cell` that is written through a shared reference becomes an entry in an explicit store of cells.

The wrappers model the code as written, defects included (see Findings); the corrected definitions stand beside them as separate members. `WindowsSocket.Listen` states the wrap of the backlog's `as c_int` conversion.

## Model

| member | source | states |
|---|---|---|
| `AddressPools.GetRights` | crates/wasi-common/src/addr.rs:75-114 | a fixed or ranged pool reports the rights it holds; the trait's default reports no base and no inheritable rights |
| `AddressPools.Contains` | crates/wasi-common/src/addr.rs:75-117 | a fixed pool admits `a` iff one of its listed endpoints equals `a`; a ranged pool iff `a` shares the network's prefix bits and `start <= port < end`; the trait's default admits nothing |
| `AddressPools.NewFixed` | crates/wasi-common/src/addr.rs:87-108 | a pool built from `a` contains exactly `a`; its rights are base `{SOCK_CONNECT}`, with nothing inheritable |
| `AddressPools.UnrefinedAdmitsNothing` | crates/wasi-common/src/addr.rs:75-80 | a pool that keeps the trait defaults contains no address and reports empty rights |
| `AddressPools.RangedContainsIff` | crates/wasi-common/src/addr.rs:115-117 | a ranged pool contains `a` iff `a`'s IP shares the network's prefix bits and `start <= port < end` |
| `AddressPools.RangedPortBounds` | crates/wasi-common/src/addr.rs:96-117 | no ranged pool admits port 65535; a pool with `start >= end` admits nothing |
| `AddressPools.RangedPoolExample` | crates/wasi-common/src/addr.rs:115-117 | `10.0.0.0/24` with ports `[9000,9100)`: admits `10.0.0.255:9000`; refuses port 9100, port 8999, `10.0.1.0` and every IPv6 address |
| `AddressPools.HarnessPoolRefusesOtherPort` | crates/test-programs/tests/wasm_tests/runtime.rs:56-58 | the harness pool for `127.0.0.1:<port>` refuses `127.0.0.1:9090` (which the connect test expects to be not-capable) unless the granted port is 9090 |
| `AddressPools.NewTable` | crates/wasi-common/src/addr.rs:15-19 | an empty table permits no address |
| `AddressPools.Insert` | crates/wasi-common/src/addr.rs:21-24 | insert appends: existing pools keep their places, and the table then permits exactly what it permitted before plus what the new pool contains |
| `AddressPools.AnyContainsIff` | crates/wasi-common/src/addr.rs:28-35 | the early-exit loop over the pools returns true iff some pool contains the address |
| `AddressPools.ToWire` | crates/wasi-common/src/addr.rs:36-70 | the tag follows the family; the port is kept; the V4 octets become `n0,n1,h0,h1` in order and V6 segment `i` becomes group `i` |
| `AddressPools.ToWireRoundTrip` | crates/wasi-common/src/addr.rs:36-70 | V4 octets map to `n0,n1,h0,h1` and V6 segments to `n0..h3`, both invertibly; the tag follows the family; the port is kept; only the V6 flow label and scope id are lost |
| `AddressPools.Resolve` | crates/wasi-common/src/addr.rs:26-72 | a resolver error comes back through the `From` conversion that `?` applies into the crate's error type, given as a parameter; otherwise the result is no longer than the resolver's output |
| `AddressPools.FilterMap` | crates/wasi-common/src/addr.rs:28-70 | filtering never lengthens the list |
| `AddressPools.FilterMapSingle` | crates/wasi-common/src/addr.rs:28-70 | a single answer is kept, converted to its wire address, exactly when some pool admits it, and dropped otherwise |
| `AddressPools.FilterMapAllOrNothing` | crates/wasi-common/src/addr.rs:28-70 | when every answer is admitted, the result is every answer converted, in order; when none is, the result is empty |
| `AddressPools.FilterMapAppend` | crates/wasi-common/src/addr.rs:28-70 | filtering works element by element, so resolver order is preserved |
| `AddressPools.ResolveSound` | crates/wasi-common/src/addr.rs:28-35 | every resolved wire address comes from a resolver address that some pool contains |
| `AddressPools.ResolveComplete` | crates/wasi-common/src/addr.rs:28-35 | every resolver address that some pool contains appears, converted, in the result |
| `AddressPools.ResolveEmptyTable` | crates/wasi-common/src/addr.rs:15-35 | resolving against an empty table gives the empty list |
| `AddressPools.InsertMonotone` | crates/wasi-common/src/addr.rs:21-35 | everything resolved before an insert is still resolved after it, in the same order (a subsequence) |
| `Net.NetContainsIsPrefixMatch` | crates/wasi-common/src/addr.rs:116 | `ipnet`'s network-to-broadcast range test is exactly the prefix match of section 3.1 of RFC 4632, and is false across families |
| `Native.InAddrFrom` | crates/wasi-common/src/sys/unix/ossocket.rs:47-56 | storing `(n0<<24 \| n1<<16 \| h0<<8 \| h1).to_be()` leaves the bytes `[n0, n1, h0, h1]` in memory |
| `Native.In4Storage` | crates/wasi-common/src/sys/unix/ossocket.rs:76-89 | a `sockaddr_in` in zeroed storage: family bytes, then the port big-endian, then the address; every other byte zero |
| `Native.In6Storage` | crates/wasi-common/src/sys/unix/ossocket.rs:90-103 | a `sockaddr_in6` in zeroed storage: family, port big-endian, zero flow label, address at byte 8; every other byte zero |
| `Native.ShutdownModeOf` | crates/wasi-common/src/sys/unix/ossocket.rs:121-135 | an error (`InvalidInput`) iff neither RD nor WR is set; otherwise the mode whose flags are exactly the RD/WR bits present |
| `Native.ShutdownModeRoundTrip` | crates/wasi-common/src/sys/unix/ossocket.rs:121-135 | converting a mode's own flags gives that mode back |
| `Native.RecvFlagsOf` | crates/wasi-common/src/sys/unix/ossocket.rs:108-119 | PEEK iff RECV_PEEK, WAIT_ALL iff RECV_WAITALL, never OOB |
| `UnixSocket.FamilyFrom` | crates/wasi-common/src/sys/unix/ossocket.rs:29-36 | the family mapping is total and has a left inverse, so it is injective |
| `UnixSocket.SockTypeFrom` | crates/wasi-common/src/sys/unix/ossocket.rs:38-45 | the socket-type mapping is injective and only ever yields stream or datagram |
| `UnixSocket.In6AddrFrom` | crates/wasi-common/src/sys/unix/ossocket.rs:58-71 | byte `2i` times 256 plus byte `2i+1` recovers group `i` |
| `UnixSocket.In6AddrFromInjective` | crates/wasi-common/src/sys/unix/ossocket.rs:58-71 | distinct IPv6 addresses give distinct byte images |
| `UnixSocket.SockAddrFromAsWritten` | crates/wasi-common/src/sys/unix/ossocket.rs:73-106 | the family follows the variant; the port is in network order; the address bytes are in place; all other storage is zero; the declared length is 16 for both variants |
| `UnixSocket.SockAddrFrom` | crates/wasi-common/src/sys/unix/ossocket.rs:99-102 | the same storage, declared with length 16 for IPv4 and 28 for IPv6 |
| `UnixSocket.EncodeStorageInjective` | crates/wasi-common/src/sys/unix/ossocket.rs:73-106 | distinct wire addresses give distinct storage images |
| `UnixSocket.Ip6LengthAsWrittenLosesGroups` | crates/wasi-common/src/sys/unix/ossocket.rs:101 | as written, `[::]:80` and `[::1]:80` declare identical bytes to the OS |
| `UnixSocket.DeclaredBytesDetermineAddr` | crates/wasi-common/src/sys/unix/ossocket.rs:99-102 | with the corrected length, equal declared bytes imply equal addresses |
| `UnixSocket.TryClone` | crates/wasi-common/src/sys/unix/ossocket.rs:137-141 | the clone always succeeds and wraps the same descriptor |
| `UnixSocket.New` | crates/wasi-common/src/sys/unix/ossocket.rs:143-148 | the OS is asked for the converted family and type; its error is passed on, and its descriptor is wrapped |
| `UnixSocket.NewKeepsRequestsApart` | crates/wasi-common/src/sys/unix/ossocket.rs:29-45 | distinct family or type requests reach `socket` as distinct arguments |
| `UnixSocket.Connect` | crates/wasi-common/src/sys/unix/ossocket.rs:150-153 | the OS receives a `sockaddr` with declared length 16 (for IPv6 too), the family in host order, the port in network order, the address bytes (group `i` at bytes `8+2i`, high byte first) and zeros elsewhere; its answer is the result |
| `UnixSocket.LaidOutUnique` | crates/wasi-common/src/sys/unix/ossocket.rs:73-106 | exactly one `sockaddr` has that layout, so `connect` is asked one definite thing per address |
| `UnixSocket.EncoderLaysOut` | crates/wasi-common/src/sys/unix/ossocket.rs:73-106 | the as-written encoder produces that layout |
| `UnixSocket.Recv` | crates/wasi-common/src/sys/unix/ossocket.rs:155-157 | the OS is asked for peek iff RECV_PEEK, for wait-all iff RECV_WAITALL, never for out-of-band data; its answer is the result |
| `UnixSocket.Shutdown` | crates/wasi-common/src/sys/unix/ossocket.rs:159-161 | with neither RD nor WR set the result is `InvalidInput` and the OS is not consulted; otherwise the OS sees the converted mode |
| `Winx.FromSocketError` | crates/wasi-common/winx/src/socket.rs:25-39 | Err iff the status is `SOCKET_ERROR`, carrying the last Winsock error; otherwise `Ok` of the status unchanged |
| `Winx.FromValidSocket` | crates/wasi-common/winx/src/socket.rs:41-61 | Ok iff the handle is not `INVALID_SOCKET`, with the handle unchanged |
| `Winx.FamilyValue` | crates/wasi-common/winx/src/socket.rs:63-68 | `AF_INET`=2 and `AF_INET6`=23, and the value decodes back to the family |
| `Winx.SockTypeValue` | crates/wasi-common/winx/src/socket.rs:77-85 | the values lie in 1..5 and decode back to the socket type |
| `Winx.ProtocolValue` | crates/wasi-common/winx/src/socket.rs:134-138 | no protocol gives 0 and only no protocol does; the value decodes back |
| `Winx.RecvFlagsBitsAsWritten` | crates/wasi-common/winx/src/socket.rs:109-115 | OOB=1, PEEK=2 and WAIT_ALL=4 are each set iff the flag is requested |
| `Winx.WaitAllSentAsDontRoute` | crates/wasi-common/winx/src/socket.rs:113 | a wait-all request sets the bit Winsock reads as `MSG_DONTROUTE` and never sets `MSG_WAITALL` |
| `Winx.RecvFlagsBits` | crates/wasi-common/winx/src/socket.rs:109-115 | each flag is set iff requested, at its Winsock header value; no other bit is set |
| `Winx.RecvFlagsBitsRoundTrip` | crates/wasi-common/winx/src/socket.rs:109-115 | the bits decode back to the requested set of flags |
| `Winx.ShutdownModeValue` | crates/wasi-common/winx/src/socket.rs:124-130 | Read=0, Write=1, Both=2, and each value decodes back to its mode |
| `Winx.Init` | crates/wasi-common/winx/src/socket.rs:10-19 | the first call runs `WSAStartup(0x202)` and leaves the `Once` complete, or poisoned when start-up fails (a panic); later calls do nothing, or panic again once poisoned |
| `Winx.SocketCall` | crates/wasi-common/winx/src/socket.rs:134-150 | after `init`, unless it panicked, the last call is `WSASocketW(af, type, protocol, WSA_FLAG_OVERLAPPED)`, and its handle is classified by `from_valid_socket` |
| `Winx.SocketCallKeepsOrder` | crates/wasi-common/winx/src/socket.rs:134-150 | one `socket` call preserves the start-up discipline: no call before start-up, start-up first, only `WSASocketW` after it |
| `Winx.RunSocketsKeepsOrder` | crates/wasi-common/winx/src/socket.rs:10-19 | any sequence of `socket` calls preserves the start-up discipline |
| `Winx.StartupAtMostOnce` | crates/wasi-common/winx/src/socket.rs:10-19 | over any number of `socket` calls, `WSAStartup` runs at most once, and it runs before every `WSASocketW` |
| `Winx.Listen` | crates/wasi-common/winx/src/socket.rs:152-155 | the OS sees the backlog cast to `c_int`; the result is Err iff the OS returns `SOCKET_ERROR` |
| `Winx.Accept` | crates/wasi-common/winx/src/socket.rs:158-165 | the OS gets a length of 128 (`sizeof SOCKADDR_STORAGE`); on a valid handle the result is the handle plus the storage with the OS-updated length |
| `Winx.Bind` | crates/wasi-common/winx/src/socket.rs:167-170 | the OS sees the storage and its declared length; Err iff `SOCKET_ERROR` |
| `Winx.Connect` | crates/wasi-common/winx/src/socket.rs:172-175 | the OS sees the storage and its declared length; Err iff `SOCKET_ERROR` |
| `Winx.Recv` | crates/wasi-common/winx/src/socket.rs:177-185 | the buffer length reaches the OS cast to `c_int`; Ok iff the status is not `SOCKET_ERROR`, with the count through `as usize`; otherwise the last Winsock error |
| `Winx.RecvCountPassesThrough` | crates/wasi-common/winx/src/socket.rs:177-185 | for a buffer shorter than 2^31 bytes and a non-negative count, the casts are invisible: the OS sees the length unchanged and its count is the result |
| `Winx.RecvFrom` | crates/wasi-common/winx/src/socket.rs:187-200 | like `recv`, with a length of 128 in; on success the count, the storage and the OS-updated length; otherwise the last Winsock error |
| `Winx.Send` | crates/wasi-common/winx/src/socket.rs:202-210 | the buffer and its length, cast to `c_int`, reach the OS; on success the count through `as usize`, otherwise the last Winsock error |
| `Winx.SendTo` | crates/wasi-common/winx/src/socket.rs:212-222 | as `send`, plus the destination storage and length |
| `Winx.NameCall` | crates/wasi-common/winx/src/socket.rs:224-248 | a length of 128 goes in; on success the storage and the OS-updated length come back |
| `Winx.SockName` | crates/wasi-common/winx/src/socket.rs:224-235 | `getsockname` with a length of 128; Ok iff not `SOCKET_ERROR`, with the storage and the OS-updated length; otherwise the last Winsock error |
| `Winx.PeerName` | crates/wasi-common/winx/src/socket.rs:237-248 | `getpeername` with a length of 128; Ok iff not `SOCKET_ERROR`, with the storage and the OS-updated length; otherwise the last Winsock error |
| `Winx.Shutdown` | crates/wasi-common/winx/src/socket.rs:251-254 | the OS sees the literal mode value; Err iff `SOCKET_ERROR` |
| `Winx.SetReuseAddr` | crates/wasi-common/winx/src/socket.rs:256-261 | the OS sees `SO_REUSEADDR` with the value 1 or 0; Err iff `SOCKET_ERROR`, with the last Winsock error |
| `Winx.GetReuseAddr` | crates/wasi-common/winx/src/socket.rs:263-268 | any non-zero option value reads as true; Err iff `SOCKET_ERROR`, with the last Winsock error |
| `Winx.ReuseAddrRoundTrip` | crates/wasi-common/winx/src/socket.rs:256-268 | when the OS reports back the `c_int` that was set, the getter returns the flag that was set |
| `Winx.SetReusePort` | crates/wasi-common/winx/src/socket.rs:270-275 | setting reuse-port succeeds whatever is asked |
| `Winx.GetReusePort` | crates/wasi-common/winx/src/socket.rs:277-283 | getting reuse-port always reports it unset |
| `Winx.ReusePortNeverReadsBack` | crates/wasi-common/winx/src/socket.rs:270-283 | setting reuse-port always succeeds and getting it always gives false, so the guest test's expectation of 1 cannot hold |
| `Winx.SetBufSize` | crates/wasi-common/winx/src/socket.rs:285-304 | the `u32` size reaches the OS cast to `c_int`; Err iff `SOCKET_ERROR`, with the last Winsock error |
| `Winx.GetBufSize` | crates/wasi-common/winx/src/socket.rs:292-311 | the `c_int` option value is returned through `as u32`; Err iff `SOCKET_ERROR`, with the last Winsock error |
| `Winx.BufSizeCastsCancel` | crates/wasi-common/winx/src/socket.rs:285-297 | if the OS reports back the `c_int` that was set, the getter returns the original `u32` exactly |
| `WindowsSocket.FamilyFrom` | crates/wasi-common/src/sys/windows/ossocket.rs:13-20 | Inet4 maps to `InetAddr` and Inet6 to `Inet6Addr`, injectively |
| `WindowsSocket.SockTypeFrom` | crates/wasi-common/src/sys/windows/ossocket.rs:22-29 | injective, and only ever stream or datagram |
| `WindowsSocket.AddrIp4From` | crates/wasi-common/src/sys/windows/ossocket.rs:43-54 | decoding `s_b1..s_b4` inverts the IPv4 encoder on every 4-byte image |
| `WindowsSocket.AddrIp4RoundTrip` | crates/wasi-common/src/sys/windows/ossocket.rs:31-54 | decoding an encoded IPv4 address gives back `n0,n1,h0,h1` |
| `WindowsSocket.In6AddrFrom` | crates/wasi-common/src/sys/windows/ossocket.rs:73-89 | group `i` is laid out in bytes `2i..2i+2`, in the chosen byte order |
| `WindowsSocket.AddrIp6From` | crates/wasi-common/src/sys/windows/ossocket.rs:56-71 | group `i` is read from bytes `2i..2i+2` in the chosen byte order |
| `WindowsSocket.In6RoundTrip` | crates/wasi-common/src/sys/windows/ossocket.rs:56-89 | word-for-word copy out and back is the identity, in either byte order |
| `WindowsSocket.In6BytesRoundTrip` | crates/wasi-common/src/sys/windows/ossocket.rs:56-89 | every 16-byte image encodes what it decodes to, so the codec is a bijection |
| `WindowsSocket.SockAddrFromAsWritten` | crates/wasi-common/src/sys/windows/ossocket.rs:91-124 | family per variant (little-endian), port through `to_be`, address bytes in place (groups in host order), declared length 16 for both variants |
| `WindowsSocket.SockAddrFrom` | crates/wasi-common/src/sys/windows/ossocket.rs:108-120 | the encoder with groups in network order and length 28 for IPv6; IPv4 is unchanged |
| `WindowsSocket.TryFrom` | crates/wasi-common/src/sys/windows/ossocket.rs:126-153 | `AF_INET` decodes to `Ip4` and `AF_INET6` to `Ip6`, with the port via `from_be`; any other family is the `EINVAL` error |
| `WindowsSocket.CodecRoundTrip` | crates/wasi-common/src/sys/windows/ossocket.rs:91-153 | decoding the encoder's output gives `Ok(a)` for every wire address, both as written and corrected |
| `WindowsSocket.TryFromReadsPrefix` | crates/wasi-common/src/sys/windows/ossocket.rs:126-153 | the decoder depends only on the first 24 bytes of the storage |
| `WindowsSocket.Ip6AsWrittenDeclaresFourGroups` | crates/wasi-common/src/sys/windows/ossocket.rs:117-120 | as written, two IPv6 addresses on the same port whose first four groups agree declare the same bytes to Winsock |
| `WindowsSocket.Ip6LengthAsWrittenLosesGroups` | crates/wasi-common/src/sys/windows/ossocket.rs:117-120 | as written, `[::]:80` and `[::1]:80` declare identical bytes to Winsock |
| `WindowsSocket.DeclaredBytesDetermineAddr` | crates/wasi-common/src/sys/windows/ossocket.rs:117-120 | with the corrected length, equal declared bytes imply equal addresses |
| `WindowsSocket.HostOrderReadAsNetworkOrder` | crates/wasi-common/src/sys/windows/ossocket.rs:77-84 | groups stored in host order and read in network order come back with their bytes swapped |
| `WindowsSocket.LoopbackLaidOutSwapped` | crates/wasi-common/src/sys/windows/ossocket.rs:77-84 | as written, any address whose last group is 1, `::1` among them, ends in bytes `1, 0`; network order ends in `0, 1` |
| `WindowsSocket.LoopbackReadAsSwapped` | crates/wasi-common/src/sys/windows/ossocket.rs:77-84 | Winsock reads the as-written `::1` as `::100` |
| `WindowsSocket.RecvFlagsFrom` | crates/wasi-common/src/sys/windows/ossocket.rs:155-166 | the helpers' PEEK bit (2) is set iff RECV_PEEK and their WAIT_ALL bit (4) iff RECV_WAITALL; the OOB bit never |
| `WindowsSocket.RecvFlagsAsReadByWinsock` | crates/wasi-common/src/sys/windows/ossocket.rs:155-166 | Winsock reads from those bits the requested flags minus wait-all, and reads `MSG_DONTROUTE` iff RECV_WAITALL was set |
| `WindowsSocket.RecvFlagsFromCorrected` | crates/wasi-common/src/sys/windows/ossocket.rs:155-166 | with each flag at its Winsock header value, PEEK and WAITALL are set iff requested, OOB never, and Winsock reads back exactly the requested flags |
| `WindowsSocket.TryClone` | crates/wasi-common/src/sys/windows/ossocket.rs:186-188 | always succeeds and wraps the same handle |
| `WindowsSocket.New` | crates/wasi-common/src/sys/windows/ossocket.rs:190-195 | goes through `socket` with the converted family and type and protocol 0; succeeds iff `WSASocketW` gives a valid handle, which is wrapped; otherwise the last Winsock error |
| `WindowsSocket.Bind` | crates/wasi-common/src/sys/windows/ossocket.rs:197-200 | the OS sees the address as the code encodes it (groups in host order, declared length 16); Err iff `SOCKET_ERROR`, with the last Winsock error |
| `WindowsSocket.Listen` | crates/wasi-common/src/sys/windows/ossocket.rs:202-204 | a backlog below 2^31 arrives unchanged; a larger one arrives as `backlog - 2^32` (truncated, not clamped); Err iff `SOCKET_ERROR`, with the last Winsock error |
| `WindowsSocket.Accept` | crates/wasi-common/src/sys/windows/ossocket.rs:206-213 | Ok iff the handle is valid and the peer address decodes (family little-endian, groups in host order); the result is the handle and the decoded address; an invalid handle gives the last Winsock error, an unknown family `EINVAL` |
| `WindowsSocket.DecodeName` | crates/wasi-common/src/sys/windows/ossocket.rs:126-153 | a name decodes iff its little-endian family is `AF_INET` or `AF_INET6`; otherwise the error is `EINVAL` |
| `WindowsSocket.Connect` | crates/wasi-common/src/sys/windows/ossocket.rs:215-218 | the OS sees the address as the code encodes it (groups in host order, declared length 16); Err iff `SOCKET_ERROR`, with the last Winsock error |
| `WindowsSocket.Recv` | crates/wasi-common/src/sys/windows/ossocket.rs:220-222 | the OS sees the length cast to `c_int` and the converted flags; on success the count through `as usize`, otherwise the last Winsock error |
| `WindowsSocket.RecvFrom` | crates/wasi-common/src/sys/windows/ossocket.rs:224-229 | Ok iff the OS succeeds and the sender's address decodes; returns the count and the address; otherwise the last Winsock error or `EINVAL` |
| `WindowsSocket.Shutdown` | crates/wasi-common/src/sys/windows/ossocket.rs:231-233 | with neither RD nor WR set the result is `InvalidInput` and the OS is not consulted; otherwise the OS sees the mode's value, and `SOCKET_ERROR` gives the last Winsock error |
| `WindowsSocket.Send` | crates/wasi-common/src/sys/windows/ossocket.rs:235-237 | the OS always sees send flags 0; on success the count through `as usize`, otherwise the last Winsock error |
| `WindowsSocket.SendTo` | crates/wasi-common/src/sys/windows/ossocket.rs:239-242 | the OS always sees send flags 0 and the destination as the code encodes it; on success the count, otherwise the last Winsock error |
| `WindowsSocket.SendIgnoresFlags` | crates/wasi-common/src/sys/windows/ossocket.rs:235-242 | `send` and `sendto` give the same result whatever `siflags` the guest passes |
| `WindowsSocket.AddrLocal` | crates/wasi-common/src/sys/windows/ossocket.rs:244-249 | Ok iff `getsockname` succeeds and its address decodes, giving the decoded address; otherwise the last Winsock error or `EINVAL` |
| `WindowsSocket.AddrRemote` | crates/wasi-common/src/sys/windows/ossocket.rs:251-256 | Ok iff `getpeername` succeeds and its address decodes, giving the decoded address; otherwise the last Winsock error or `EINVAL` |
| `WindowsSocket.NameRoundTrip` | crates/wasi-common/src/sys/windows/ossocket.rs:197-256 | an address bound or connected to, and handed back verbatim by `getsockname` or `getpeername`, comes back from `addr_local` and `addr_remote` unchanged |
| `WindowsSocket.PeerRoundTrip` | crates/wasi-common/src/sys/windows/ossocket.rs:206-229 | a peer address that reaches `accept` or `recvfrom` laid out as this code encodes it comes back unchanged |
| `WindowsSocket.NetworkOrderReadAsHostOrder` | crates/wasi-common/src/sys/windows/ossocket.rs:56-71 | groups stored in network order and read in host order come back with their bytes swapped |
| `WindowsSocket.NameFromWinsockSwapped` | crates/wasi-common/src/sys/windows/ossocket.rs:244-256 | when Winsock writes a name in network order, `addr_local` and `addr_remote` return an IPv4 name intact and an IPv6 name with every group byte-swapped |
| `OsSockets.FiletypeOf` | crates/wasi-common/src/sys/ossocket.rs:8-15 | stream maps to `SocketStream` and datagram to `SocketDgram`; the mapping is injective |
| `OsSockets.New` | crates/wasi-common/src/sys/ossocket.rs:24-34 | a raw-socket error is passed on; otherwise the socket has the requested type and a fresh cell holding `from_base(empty)`, and no existing cell changes |
| `OsSockets.TryClone` | crates/wasi-common/src/sys/ossocket.rs:41-50 | a raw-clone error is passed on; otherwise the clone has the same socket type and a different, fresh cell holding the current rights |
| `OsSockets.GetFileType` | crates/wasi-common/src/sys/ossocket.rs:52-54 | the file type is the one that stands for the socket's type |
| `OsSockets.SetRights` | crates/wasi-common/src/sys/ossocket.rs:56-58 | the socket's rights become `r` with no condition on `r`; no other cell changes |
| `OsSockets.NewSocketRightsCanWiden` | crates/wasi-common/src/sys/ossocket.rs:25-58 | a new socket's rights cell starts with no base rights, and after `set_rights` the cell holds `SOCK_CONNECT` |
| `OsSockets.CloneRightsIndependent` | crates/wasi-common/src/sys/ossocket.rs:41-58 | setting the rights of a clone leaves the original's unchanged, and vice versa; both report the same file type |
| `Platforms.In6NetworkOrderAgrees` | crates/wasi-common/src/sys/windows/ossocket.rs:73-89 | with groups in network order, the Windows IPv6 bytes equal the unix ones |
| `Platforms.In6HostOrderDisagrees` | crates/wasi-common/src/sys/windows/ossocket.rs:77-84 | the as-written Windows bytes for `::1` differ from the unix bytes |
| `Platforms.WaitAllReachesOnlyUnix` | crates/wasi-common/src/sys/windows/ossocket.rs:155-166 | a wait-all request is among the flags the unix `recv` gets, but not among those Winsock reads from the Windows bits; with the corrected bits it is |
| `Platforms.UnixCloneIsAlias` | crates/wasi-common/src/sys/unix/ossocket.rs:137-141 | an `OsSocket` cloned over the unix back end holds the same descriptor and the same rights, in its own cell |

## Left out

- System calls are function parameters. The model states nothing about OS behaviour, such as what a double bind returns or whether a buffer size is echoed back. Received bytes are not modelled; only lengths and counts are.
- The resolver (`to_socket_addrs`) is left out as DNS I/O. `Resolve` takes its output, or its error, as input.
- `AddressPools.Resolve`: the crate's error type and its `From<io::Error>` conversion are not part of this model; `Resolve` is generic in the error type and takes the conversion as a parameter, so it promises only that the error is that conversion of the resolver's error.
- `ipnet` is modelled only by its `contains` range test (network ≤ address ≤ broadcast). Prefix lengths are limited to the address width, as `IpNet::new` requires.
- `crates/wasi-common/yanix/src/socket.rs` is not part of this model. It is a libc wrapper whose constants live elsewhere. The unix side models only the arguments the wrappers pass.
- The BSD `sockaddr` layout (with a length byte) is left out; offsets are those of Linux and Winsock.
- The thread safety of `std::sync::Once` is left out. The start-up flag is a sequential state whose calls happen one after another.
- `get_socket_type` (`winx/src/socket.rs:313-330`) is left out. Nothing in the modelled code calls it, and its result is a raw memory reinterpretation.
- The Windows reuse-address, reuse-port and buffer-size methods of `RawOsSocket` are left out as separate members. They forward unchanged to the `Winx` functions modelled above.
- Checks that gate `bind`, `connect` and `send_to` on the pool table, and descriptor checks in `sock_open`, are not part of this model. They are not in the modelled files, where `OsSocket` has no pool.
- Rights narrowing is not enforced. `set_rights` overwrites unconditionally, as in the code.
- Ownership and closing of descriptors are left out. `try_clone` aliases the descriptor without duplicating it, and that is all the model says about it.
- `Handle` and `HandleRights` come from `crates/wasi-common/src/handle.rs`, which is not part of this model. Rights are two sets of rights, and only `SOCK_CONNECT` is named.
- `OsSockets.RightsOf`: `OsSocket` does not override `Handle::get_rights` in `crates/wasi-common/src/sys/ossocket.rs`, so `RightsOf` is the content of the rights cell, not what the handle reports to its callers.
- The raw-descriptor conversions of the unix `RawOsSocket` (`crates/wasi-common/src/sys/unix/ossocket.rs:11-27`) are left out. Each one only wraps or unwraps the descriptor, which the model keeps as a plain field.
- `as_any` (`crates/wasi-common/src/sys/ossocket.rs:37-39`) is left out because it is a dynamic downcast with no behaviour of its own.
- The guest test programs and their harness are cited only as evidence.

## Findings

| source | as written | input that shows it | evidently intended | confidence | as-written member | corrected member |
|---|---|---|---|---|---|---|
| crates/wasi-common/src/sys/unix/ossocket.rs:101 | the IPv6 address is declared with `size_of::<sockaddr_in>()` (16) | `[::]:80` and `[::1]:80`: the 16 declared bytes are identical, and the address bytes at 16..24 are never declared | `size_of::<sockaddr_in6>()` (28) | high; not executed | `UnixSocket.Ip6LengthAsWrittenLosesGroups` | `UnixSocket.DeclaredBytesDetermineAddr` |
| crates/wasi-common/src/sys/windows/ossocket.rs:119 | the IPv6 address is declared with `size_of::<SOCKADDR_IN>()` (16) | `[::]:80` and `[::1]:80` declare identical bytes to Winsock | `size_of::<SOCKADDR_IN6>()` (28) | high; not executed | `WindowsSocket.Ip6LengthAsWrittenLosesGroups` | `WindowsSocket.DeclaredBytesDetermineAddr` |
| crates/wasi-common/src/sys/windows/ossocket.rs:77-84 | each group is stored into `Word_mut()[i]` as a host-order (little-endian) `u16`; the decoder at 60-67 reads it back the same way | `::1` is laid out as `…, 1, 0`, which Winsock reads as `::100` | each group in network order (`to_be` / `from_be`), as the port and the unix encoder do | medium (assumes a little-endian Windows host); not executed | `WindowsSocket.LoopbackReadAsSwapped` | `Platforms.In6NetworkOrderAgrees` |
| crates/wasi-common/winx/src/socket.rs:113 | `RecvFlags::WAIT_ALL = 0x4`, the value the same file gives `SendFlags::DONTROUTE` | a `recv` with RECV_WAITALL passes bit 0x4, which Winsock reads as `MSG_DONTROUTE`, and never passes `MSG_WAITALL` (0x8) | `WAIT_ALL = 0x8`, Winsock's `MSG_WAITALL` | medium (the header value 0x8 is Winsock's, not in the modelled files); not executed | `Winx.WaitAllSentAsDontRoute` | `WindowsSocket.RecvFlagsFromCorrected` |

The wrappers model the code as written. `UnixSocket.Connect` and the Windows calls that pass an address use the as-written encoders. The Windows calls that read an address decode with groups in host order. `WindowsSocket.RecvFlagsFrom` sends the helpers' bits.

The corrected definitions are separate members, and their properties are proved:

- `UnixSocket.SockAddrFrom`;
- `WindowsSocket.SockAddrFrom`, with `WindowsSocket.TryFrom` in network order;
- `WindowsSocket.RecvFlagsFromCorrected`.

`WindowsSocket.NameFromWinsockSwapped` shows the third row at the level of the wrappers, and `Platforms.WaitAllReachesOnlyUnix` shows the fourth.
