/** The native side shared by both platform back ends: the byte layout of a socket address in a
    zeroed `sockaddr_storage`, the shutdown modes and the receive flags. The field offsets used
    here (family at 0, port at 2, IPv4 address at 4, IPv6 flow label at 4 and address at 8) and
    the structure sizes are those of Linux and of Winsock, which agree. */
module Native {

  import opened Bytes
  import opened Wrappers
  import opened Types

  /** `size_of::<sockaddr_storage>()`. */
  const SOCKADDR_STORAGE_SIZE: nat := 128
  /** `size_of::<sockaddr_in>()`. */
  const SOCKADDR_IN_SIZE: nat := 16
  /** `size_of::<sockaddr_in6>()`. */
  const SOCKADDR_IN6_SIZE: nat := 28

  type Storage = s: seq<u8> | |s| == 128 witness seq(128, i => 0)

  /** A native socket address: the storage bytes and the length declared to the OS. */
  datatype SockAddr = SockAddr(storage: Storage, len: int)

  /** `n0<<24 | n1<<16 | h0<<8 | h1`; the four shifted lanes do not overlap, so their bitwise or
      is their sum. */
  function Pack4(a: AddrIp4): u32 {
    a.n0 as int * 0x100_0000 + a.n1 as int * 0x1_0000 + a.h0 as int * 0x100 + a.h1
  }

  /** `From<&AddrIp4> for InAddr`, the same on both back ends: the bytes of `s_addr` after
      storing `Pack4(a).to_be()` are the octets in order, as Appendix B of RFC 791 transmits them. */
  function InAddrFrom(a: AddrIp4): (r: seq<u8>)
    ensures r == [a.n0, a.n1, a.h0, a.h1]
  {
    var r := BeBytes32(Pack4(a));
    assert FromBe32([a.n0, a.n1, a.h0, a.h1]) == Pack4(a);
    FromBe32Injective(r, [a.n0, a.n1, a.h0, a.h1]);
    r
  }

  /** A `sockaddr_in` written into zeroed storage: the family bytes, the port in network order,
      the four address bytes; every other byte stays zero. */
  function In4Storage(family: seq<u8>, port: u16, addr: seq<u8>): (s: Storage)
    requires |family| == 2 && |addr| == 4
    ensures s[..2] == family && s[2..4] == BeBytes16(port) && s[4..8] == addr
    ensures forall i :: 8 <= i < SOCKADDR_STORAGE_SIZE ==> s[i] == 0
  {
    family + BeBytes16(port) + addr + Zeros(120)
  }

  /** A `sockaddr_in6` written into zeroed storage: the family bytes, the port in network order,
      the sixteen address bytes at offset 8; flow label, scope id and the rest stay zero. */
  function In6Storage(family: seq<u8>, port: u16, addr: seq<u8>): (s: Storage)
    requires |family| == 2 && |addr| == 16
    ensures s[..2] == family && s[2..4] == BeBytes16(port) && s[8..24] == addr
    ensures forall i :: (4 <= i < 8 || 24 <= i < SOCKADDR_STORAGE_SIZE) ==> s[i] == 0
  {
    family + BeBytes16(port) + Zeros(4) + addr + Zeros(104)
  }

  /** The three ways to shut a socket down. */
  datatype ShutdownMode = Read | Write | Both

  /** The `sdflags` bits that select a mode. */
  function ModeFlags(m: ShutdownMode): Sdflags {
    match m
    case Read => RD
    case Write => WR
    case Both => RD | WR
  }

  /** The `TryFrom<Sdflags>` conversion both back ends perform: both bits give `Both`, one bit
      gives that direction, and neither bit is an `InvalidInput` error. Other bits are ignored. */
  function ShutdownModeOf(flags: Sdflags): (r: Result<ShutdownMode, IoError>)
    ensures r.Err? <==> flags & (RD | WR) == 0
    ensures r.Err? ==> r.error == InvalidInput
    ensures r.Ok? ==> flags & (RD | WR) == ModeFlags(r.value)
  {
    if (flags & RD == RD) && (flags & WR == WR) then Ok(Both)
    else if flags & RD == RD then Ok(Read)
    else if flags & WR == WR then Ok(Write)
    else Err(InvalidInput)
  }

  /** Converting a mode's own flags gives the mode back. */
  lemma ShutdownModeRoundTrip(m: ShutdownMode)
    ensures ShutdownModeOf(ModeFlags(m)) == Ok(m)
  {
  }

  /** The native receive flags. */
  datatype RecvFlag = Oob | Peek | WaitAll

  /** The native receive flags both back ends derive from the guest's `riflags`: PEEK exactly
      when RECV_PEEK is set, WAIT_ALL exactly when RECV_WAITALL is set, and nothing else (the
      unix `From<Riflags> for RecvFlags`). */
  function RecvFlagsOf(flags: Riflags): (r: set<RecvFlag>)
    ensures Peek in r <==> flags & RECV_PEEK == RECV_PEEK
    ensures WaitAll in r <==> flags & RECV_WAITALL == RECV_WAITALL
    ensures Oob !in r
  {
    (if flags & RECV_PEEK == RECV_PEEK then {Peek} else {})
      + (if flags & RECV_WAITALL == RECV_WAITALL then {WaitAll} else {})
  }
}
