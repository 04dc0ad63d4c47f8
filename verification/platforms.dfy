/** How the two back ends relate: the address bytes each hands to its OS, and the socket handle
    assembled over either raw socket. */
module Platforms {

  import opened Bytes
  import opened Wrappers
  import opened Types
  import opened Native
  import UnixSocket
  import WindowsSocket
  import Winx
  import OsSockets

  /** With groups laid out in network order, the Windows IPv6 bytes are exactly the unix
      ones: high byte first for every group, as section 2.2 of RFC 4291 writes the groups. */
  lemma In6NetworkOrderAgrees(a: AddrIp6)
    ensures WindowsSocket.In6AddrFrom(Big, a) == UnixSocket.In6AddrFrom(a)
  {
    var w := WindowsSocket.In6AddrFrom(Big, a);
    var u := UnixSocket.In6AddrFrom(a);
    forall i | 0 <= i < 8 ensures w[2 * i..2 * i + 2] == u[2 * i..2 * i + 2] {
      assert FromBe16(u[2 * i..2 * i + 2]) == Group(a, i);
      FromNative16Injective(Big, w[2 * i..2 * i + 2], u[2 * i..2 * i + 2]);
    }
    WindowsSocket.PairsDetermineBytes(w, u);
  }

  /** The Windows encoder as written sends `::1` with bytes the unix encoder would not. */
  lemma In6HostOrderDisagrees()
    ensures WindowsSocket.In6AddrFrom(Little, WindowsSocket.LOOPBACK6) != UnixSocket.In6AddrFrom(WindowsSocket.LOOPBACK6)
  {
    WindowsSocket.LoopbackLaidOutSwapped(WindowsSocket.LOOPBACK6);
    In6NetworkOrderAgrees(WindowsSocket.LOOPBACK6);
  }

  /** A guest's wait-all request reaches the unix `recv` but not Winsock's, which reads the bit
      the helpers send as `MSG_DONTROUTE`; with each flag as its header value it would. */
  lemma WaitAllReachesOnlyUnix(flags: Riflags)
    requires flags & RECV_WAITALL == RECV_WAITALL
    ensures WaitAll in RecvFlagsOf(flags)
    ensures WaitAll !in Winx.RecvFlagsOfBits(WindowsSocket.RecvFlagsFrom(flags))
    ensures WaitAll in Winx.RecvFlagsOfBits(WindowsSocket.RecvFlagsFromCorrected(flags))
  {
    WindowsSocket.RecvFlagsAsReadByWinsock(flags);
  }

  /** A handle cloned over the unix back end refers to the same descriptor, holds the rights
      the original held, and keeps them in a cell of its own. */
  lemma UnixCloneIsAlias(cells: OsSockets.Cells, s: OsSockets.OsSocket<UnixSocket.RawOsSocket>)
    requires OsSockets.Valid(cells, s)
    ensures var r := OsSockets.TryClone(cells, s, UnixSocket.TryClone);
            && r.Ok?
            && r.value.socket.handle.fd == s.handle.fd
            && OsSockets.RightsOf(r.value.cells, r.value.socket) == OsSockets.RightsOf(cells, s)
            && r.value.socket.rightsCell != s.rightsCell
  {
  }
}
