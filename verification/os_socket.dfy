/** The platform-independent socket handle (crates/wasi-common/src/sys/ossocket.rs): its socket
    type, its rights and the raw back-end handle. The rights live in a `Cell`, which
    `set_rights` overwrites through a shared reference; here every such cell is an entry of an
    explicit store, and a socket names its cell by index. The raw handle type `H` is the back
    end's `RawOsSocket`, and creating or cloning one is a function parameter. */
module OsSockets {

  import opened Wrappers
  import opened Types

  /** `From<SockType> for Filetype`. */
  function FiletypeOf(t: SockType): (r: Filetype)
    ensures r == Filetype.SocketStream || r == Filetype.SocketDgram
    ensures SockTypeOfFiletype(r) == Some(t)
  {
    match t
    case SocketStream => Filetype.SocketStream
    case SocketDgram => Filetype.SocketDgram
  }

  /** The socket type a file type stands for, if any. */
  function SockTypeOfFiletype(f: Filetype): Option<SockType> {
    match f
    case SocketStream => Some(SockType.SocketStream)
    case SocketDgram => Some(SockType.SocketDgram)
    case _ => None
  }

  /** The contents of every rights cell allocated so far. */
  datatype Cells = Cells(values: seq<HandleRights>)

  /** `OsSocket`: the socket type, the index of its rights cell, and the raw handle. */
  datatype OsSocket<H> = OsSocket(socketType: SockType, rightsCell: nat, handle: H)

  predicate Valid<H>(cells: Cells, s: OsSocket<H>) {
    s.rightsCell < |cells.values|
  }

  /** The content of the socket's rights cell: what `new` put there, `set_rights` last wrote,
      or `try_clone` copied. Nothing in `OsSocket` itself reads the cell back. */
  function RightsOf<H>(cells: Cells, s: OsSocket<H>): HandleRights
    requires Valid(cells, s)
  {
    cells.values[s.rightsCell]
  }

  /** A new socket together with the store holding its freshly allocated cell. */
  datatype Created<H> = Created(cells: Cells, socket: OsSocket<H>)

  /** Whether `after` extends `before` with one fresh cell, leaving every existing cell as it
      was. */
  predicate OneMoreCell(before: Cells, after: Cells) {
    |after.values| == |before.values| + 1 && after.values[..|before.values|] == before.values
  }

  /** `OsSocket::new`: a failure to create the raw socket is passed on; otherwise the socket has
      the requested type, the raw handle, and a new cell holding `from_base(empty)`. */
  function New<H>(cells: Cells, af: AddressFamily, t: SockType, rawNew: (AddressFamily, SockType) -> Result<H, IoError>)
    : (r: Result<Created<H>, IoError>)
    ensures rawNew(af, t).Err? ==> r == Err(rawNew(af, t).error)
    ensures rawNew(af, t).Ok? ==>
      && r.Ok?
      && OneMoreCell(cells, r.value.cells)
      && r.value.socket.socketType == t
      && r.value.socket.handle == rawNew(af, t).value
      && Valid(r.value.cells, r.value.socket)
      && RightsOf(r.value.cells, r.value.socket) == FromBase({})
  {
    var raw :- rawNew(af, t);
    Ok(Created(Cells(cells.values + [FromBase({})]), OsSocket(t, |cells.values|, raw)))
  }

  /** `try_clone`: a failure to clone the raw handle is passed on; otherwise the clone has the
      same socket type and a new cell holding a copy of the current rights. */
  function TryClone<H>(cells: Cells, s: OsSocket<H>, cloneRaw: H -> Result<H, IoError>): (r: Result<Created<H>, IoError>)
    requires Valid(cells, s)
    ensures cloneRaw(s.handle).Err? ==> r == Err(cloneRaw(s.handle).error)
    ensures cloneRaw(s.handle).Ok? ==>
      && r.Ok?
      && OneMoreCell(cells, r.value.cells)
      && r.value.socket.socketType == s.socketType
      && r.value.socket.handle == cloneRaw(s.handle).value
      && Valid(r.value.cells, r.value.socket)
      && r.value.socket.rightsCell != s.rightsCell
      && RightsOf(r.value.cells, r.value.socket) == RightsOf(cells, s)
  {
    var raw :- cloneRaw(s.handle);
    Ok(Created(Cells(cells.values + [RightsOf(cells, s)]), OsSocket(s.socketType, |cells.values|, raw)))
  }

  /** `get_file_type`: from the socket type alone. */
  function GetFileType<H>(s: OsSocket<H>): (f: Filetype)
    ensures SockTypeOfFiletype(f) == Some(s.socketType)
  {
    FiletypeOf(s.socketType)
  }

  /** `set_rights`: the socket's cell now holds `r`, whatever it held before; no subset check is
      made, so rights can widen as well as narrow. No other cell changes. */
  function SetRights<H>(cells: Cells, s: OsSocket<H>, r: HandleRights): (c: Cells)
    requires Valid(cells, s)
    ensures |c.values| == |cells.values|
    ensures RightsOf(c, s) == r
    ensures forall i :: 0 <= i < |c.values| && i != s.rightsCell ==> c.values[i] == cells.values[i]
  {
    Cells(cells.values[s.rightsCell := r])
  }

  /** A new socket's rights cell starts at `from_base(empty)`, and after `set_rights` the cell
      holds `SOCK_CONNECT`. */
  lemma NewSocketRightsCanWiden<H>(cells: Cells, af: AddressFamily, t: SockType,
                                   rawNew: (AddressFamily, SockType) -> Result<H, IoError>)
    requires rawNew(af, t).Ok?
    ensures var c := New(cells, af, t, rawNew).value;
            && RightsOf(c.cells, c.socket).base == {}
            && SockConnect in RightsOf(SetRights(c.cells, c.socket, FromBase({SockConnect})), c.socket).base
  {
  }

  /** A clone and its original do not share rights: setting the rights of either leaves the
      other's unchanged, and neither changes a file type. */
  lemma CloneRightsIndependent<H>(cells: Cells, s: OsSocket<H>, cloneRaw: H -> Result<H, IoError>, r: HandleRights)
    requires Valid(cells, s)
    requires cloneRaw(s.handle).Ok?
    ensures var c := TryClone(cells, s, cloneRaw).value;
            && Valid(c.cells, s)
            && RightsOf(SetRights(c.cells, s, r), c.socket) == RightsOf(cells, s)
            && RightsOf(SetRights(c.cells, c.socket, r), s) == RightsOf(cells, s)
            && GetFileType(c.socket) == GetFileType(s)
  {
    var c := TryClone(cells, s, cloneRaw).value;
    assert c.cells.values[s.rightsCell] == cells.values[s.rightsCell];
  }
}
