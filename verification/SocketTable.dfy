/**
 The descriptor table (src/file.c) and the table of W5100 sockets
 (src/w5100_socket.c), in which a listener and the connection it accepted share
 one slot. What the chip answers is a parameter of each call.
 */
module SocketTable {
  import opened Wrappers
  import RingMemory

  const OPEN_MAX: nat := 20
  const SOCKETS := RingMemory.SOCKETS
  const FREE: int := -1

  datatype Mode = Unset | Sock | Regular

  /** An entry of files; slot is the opaque pointer of a socket's entry. */
  datatype File = File(num: int, inUse: bool, isOpen: bool, mode: Mode, nonblock: bool, slot: Option<nat>)

  datatype SockType = Stream | Dgram | Raw

  datatype SockState = NONE | CREATED | CONNECTED | BOUND | LISTENING | ACCEPTED | DISCONNECTED

  /** An entry of w5100_sockets; fdData and connData point into files. */
  datatype Slot = Slot(fd: int, stype: SockType, state: SockState, fdData: Option<nat>, connData: Option<nat>)

  datatype Table = Table(files: seq<File>, slots: seq<Slot>)

  predicate Records(s: Slot, f: nat) {
    s.fdData == Some(f) || s.connData == Some(f)
  }

  /** Free, state NONE and both pointers null go together; the other states say which
      descriptors the slot must have. */
  predicate SlotOk(s: Slot) {
    && (s.state == NONE <==> s.fd == FREE)
    && (s.state == NONE <==> s.fdData == None && s.connData == None)
    && (s.state == LISTENING ==> s.stype == Stream && s.fdData.Some?)
    && (s.state == ACCEPTED ==> s.stype == Stream && s.connData.Some?)
    && (s.state in {CREATED, BOUND, CONNECTED} ==> s.fdData.Some? && s.connData == None)
    && (s.state == DISCONNECTED ==> (s.fdData == None <==> s.connData.Some?))
    && (s.stype == Dgram ==> s.state in {NONE, CREATED, BOUND})
    && (s.stype == Raw ==> s.state in {NONE, CREATED})
  }

  /** A recorded descriptor is allocated and points back to the slot that records it. */
  predicate DescriptorOk(t: Table, s: nat, f: nat) {
    && 3 <= f < |t.files|
    && t.files[f].inUse && t.files[f].num == f
    && t.files[f].mode == Sock && t.files[f].slot == Some(s)
  }

  ghost predicate Inv(t: Table) {
    && |t.files| == OPEN_MAX && |t.slots| == SOCKETS
    && (forall s: nat {:trigger t.slots[s]} | s < SOCKETS :: SlotOk(t.slots[s]))
    && (forall s: nat {:trigger t.slots[s]} | s < SOCKETS ::
          && (t.slots[s].fdData.Some? ==> DescriptorOk(t, s, t.slots[s].fdData.value))
          && (t.slots[s].connData.Some? ==> DescriptorOk(t, s, t.slots[s].connData.value)))
    && (forall s: nat {:trigger t.slots[s]} | s < SOCKETS && t.slots[s].fdData.Some? ::
          t.slots[s].fdData != t.slots[s].connData)
    && (forall f: nat {:trigger t.files[f]} | f < OPEN_MAX && t.files[f].slot.Some? :: t.files[f].slot.value < SOCKETS)
  }

  /** Every descriptor is recorded at most once across all slots. */
  lemma RecordedOnce(t: Table, s: nat, s': nat, f: nat)
    requires Inv(t) && s < SOCKETS && s' < SOCKETS
    requires Records(t.slots[s], f) && Records(t.slots[s'], f)
    ensures s == s' && (t.slots[s].fdData == Some(f)) != (t.slots[s].connData == Some(f))
  {
  }

  // ---- src/file.c ----

  function FirstUnallocated(files: seq<File>, from: nat): (fd: int)
    requires from <= |files|
    ensures fd == -1 <==> forall i | from <= i < |files| :: files[i].inUse
    ensures fd != -1 ==> from <= fd < |files| && !files[fd].inUse
    ensures fd != -1 ==> forall i | from <= i < fd :: files[i].inUse
    decreases |files| - from
  {
    if from == |files| then -1 else if !files[from].inUse then from else FirstUnallocated(files, from + 1)
  }

  const BLANK := File(0, false, false, Unset, false, None)

  function FileAlloc(files: seq<File>): (r: (seq<File>, int))
    requires |files| == OPEN_MAX
    ensures |r.0| == OPEN_MAX
    ensures r.1 == -1 ==> r.0 == files
    ensures r.1 != -1 ==> 3 <= r.1 < OPEN_MAX && !files[r.1].inUse
  {
    var fd := FirstUnallocated(files, 3);
    if fd == -1 then (files, -1) else (files[fd := BLANK.(num := fd, inUse := true)], fd)
  }

  // ---- slots ----

  function FirstFree(slots: seq<Slot>, from: nat): (i: int)
    requires from <= |slots|
    ensures i == -1 <==> forall j | from <= j < |slots| :: slots[j].fd != FREE
    ensures i != -1 ==> from <= i < |slots| && slots[i].fd == FREE
    ensures i != -1 ==> forall j | from <= j < i :: slots[j].fd != FREE
    decreases |slots| - from
  {
    if from == |slots| then -1 else if slots[from].fd == FREE then from else FirstFree(slots, from + 1)
  }

  /** get_socket_from_fd. It looks at neither isopen nor isallocated. */
  function GetSocket(t: Table, fd: nat): (s: Option<nat>)
    requires Inv(t)
    ensures s.Some? ==> s.value < SOCKETS && fd < OPEN_MAX
  {
    if fd >= OPEN_MAX || t.files[fd].mode != Sock then None else t.files[fd].slot
  }

  /** fill_fd_struct. */
  function FillFd(files: seq<File>, fd: nat, s: nat): seq<File>
    requires fd < |files|
  {
    files[fd := files[fd].(isOpen := true, mode := Sock, nonblock := false, slot := Some(s))]
  }

  const FREE_SLOT := Slot(FREE, Stream, NONE, None, None)

  function SocketFree(s: Slot): Slot {
    s.(fd := FREE, fdData := None, connData := None, state := NONE)
  }

  /** The end of a descriptor: isopen cleared, then file_free. */
  function Drop(files: seq<File>, f: nat): seq<File>
    requires f < |files|
  {
    files[f := files[f].(isOpen := false, inUse := false)]
  }

  // ---- calls ----

  function Socket(t: Table, stype: SockType): (r: (Table, int))
    requires Inv(t)
    ensures Inv(r.0)
    ensures r.1 == -1 ==> r.0 == t
    ensures r.1 != -1 ==> 3 <= r.1 < OPEN_MAX && !t.files[r.1].inUse && GetSocket(r.0, r.1).Some?
  {
    var i := FirstFree(t.slots, 0);
    if i == -1 then (t, -1) else
    var (files, fd) := FileAlloc(t.files);
    if fd == -1 then (t, -1) else
    (Table(FillFd(files, fd, i), t.slots[i := Slot(fd, stype, CREATED, Some(fd), None)]), fd)
  }

  function SetState(t: Table, s: nat, state: SockState): Table
    requires s < |t.slots|
  {
    t.(slots := t.slots[s := t.slots[s].(state := state)])
  }

  function Bind(t: Table, fd: nat, inet: bool): (r: (Table, int))
    requires Inv(t)
    ensures Inv(r.0)
  {
    var g := GetSocket(t, fd);
    if g == None || !inet then (t, -1)
    else if t.slots[g.value].state != CREATED then (t, 1)
    else if t.slots[g.value].stype == Raw then (t, -1)
    else (SetState(t, g.value, BOUND), 0)
  }

  datatype Family = AF_UNSPEC | AF_INET | AF_OTHER

  /** connect_tcp and connect_udp. */
  function Connect(t: Table, fd: nat, family: Family, established: bool): (r: (Table, int))
    requires Inv(t)
    ensures Inv(r.0)
  {
    var g := GetSocket(t, fd);
    if g == None then (t, -1) else
    var s := t.slots[g.value];
    match s.stype
    case Stream =>
      if family != AF_INET || s.state != CREATED || !established then (t, -1)
      else (SetState(t, g.value, CONNECTED), 0)
    case Dgram =>
      if family == AF_OTHER then (t, -1) else (CheckBindUdp(t, g.value), 0)
    case Raw => (t, -1)
  }

  function CheckBindUdp(t: Table, s: nat): (r: Table)
    requires Inv(t) && s < SOCKETS && t.slots[s].stype == Dgram
    ensures Inv(r)
  {
    if t.slots[s].state == CREATED then SetState(t, s, BOUND) else t
  }

  function Listen(t: Table, fd: nat): (r: (Table, int))
    requires Inv(t)
    ensures Inv(r.0)
  {
    var g := GetSocket(t, fd);
    if g == None then (t, -1)
    else if t.slots[g.value].state != BOUND then (t, 1)
    else if t.slots[g.value].stype != Stream then (t, -1)
    else (SetState(t, g.value, LISTENING), 0)
  }

  /** accept, with the status it last read from the chip. */
  function Accept(t: Table, fd: nat, established: bool): (r: (Table, int))
    requires Inv(t)
    ensures Inv(r.0)
  {
    var g := GetSocket(t, fd);
    if g == None then (t, -1)
    else if t.slots[g.value].state != LISTENING then (t, 1)
    else if !established then (t, -1)
    else
      var (files, newfd) := FileAlloc(t.files);
      if newfd == -1 then (t, -1) else
      (Table(FillFd(files, newfd, g.value),
             t.slots[g.value := t.slots[g.value].(state := ACCEPTED, connData := Some(newfd))]), newfd)
  }

  /** w5100_sock_close. */
  function Close(t: Table, fd: nat): (r: (Table, int))
    requires Inv(t)
    ensures Inv(r.0)
  {
    var g := GetSocket(t, fd);
    if g == None then (t, -1) else
    var s := t.slots[g.value];
    if s.fdData.Some? && t.files[s.fdData.value].num == fd then
      var s1 := if s.state != ACCEPTED then SocketFree(s) else s.(fdData := None);
      (Table(Drop(t.files, fd), t.slots[g.value := s1]), 0)
    else if s.connData.Some? && t.files[s.connData.value].num == fd then
      var s1 := if s.fdData == None then SocketFree(s) else s.(connData := None, state := LISTENING);
      (Table(Drop(t.files, fd), t.slots[g.value := s1]), 0)
    else (t, -1)
  }

  /** manage_disconnect, when the chip says the connection is gone. */
  function Disconnect(t: Table, s: nat): (r: Table)
    requires Inv(t) && s < SOCKETS && t.slots[s].state in {ACCEPTED, CONNECTED}
    ensures Inv(r)
  {
    SetState(t, s, if t.slots[s].state == ACCEPTED && t.slots[s].fdData.Some? then LISTENING else DISCONNECTED)
  }

  datatype Outcome = Fails | Runs | NullPointer

  /** Where a datagram goes: send on a socket that was never connected has no destination, and
      sendto refuses a datagram that is too long, or an address that is missing or not allowed. */
  datatype Destination = Nowhere | Refused | Usable

  /** send and sendto, up to the transfer: they read the flags of the descriptor behind fdData,
      on a datagram socket whatever its state, and may on a stream then find the link down. */
  function Send(t: Table, fd: nat, linkDown: bool, dest: Destination): (r: (Table, Outcome))
    requires Inv(t)
    ensures Inv(r.0)
  {
    var g := GetSocket(t, fd);
    if g == None then (t, Fails) else
    var s := t.slots[g.value];
    match s.stype
    case Stream =>
      if s.state !in {ACCEPTED, CONNECTED} then (t, Fails)
      else if s.fdData == None then (t, NullPointer)
      else if linkDown then (Disconnect(t, g.value), Runs)
      else (t, Runs)
    case Dgram =>
      if dest == Nowhere then (t, Fails) else
      var t1 := CheckBindUdp(t, g.value);
      if dest == Refused then (t1, Fails)
      else if t1.slots[g.value].fdData == None then (t1, NullPointer)
      else (t1, Runs)
    case Raw => (t, Fails)
  }

  /** recvfrom, with a non-empty buffer, up to the transfer. It tests the state of streams and
      of datagram sockets, but not of raw ones. */
  function Receive(t: Table, fd: nat, linkDown: bool): (r: (Table, Outcome))
    requires Inv(t)
    ensures Inv(r.0)
  {
    var g := GetSocket(t, fd);
    if g == None then (t, Fails) else
    var s := t.slots[g.value];
    if s.stype == Stream && s.state !in {ACCEPTED, CONNECTED} then (t, Fails)
    else if s.stype == Dgram && s.state !in {BOUND, CREATED} then (t, Fails)
    else if s.fdData == None then (t, NullPointer)
    else if s.stype == Stream && linkDown then (Disconnect(t, g.value), Runs)
    else (t, Runs)
  }

  /** The file system takes a descriptor from the same table. */
  function OpenFile(t: Table): (r: (Table, int))
    requires Inv(t)
    ensures Inv(r.0)
  {
    var (files, fd) := FileAlloc(t.files);
    if fd == -1 then (t, -1)
    else (t.(files := files[fd := files[fd].(isOpen := true, mode := Regular)]), fd)
  }

  function CloseFile(t: Table, fd: nat): (r: (Table, int))
    requires Inv(t)
    ensures Inv(r.0)
  {
    if fd < OPEN_MAX && t.files[fd].mode == Regular && t.files[fd].isOpen
    then (t.(files := Drop(t.files, fd)), 0) else (t, -1)
  }

  // ---- runs ----

  /** A call, with what the chip answers to it. */
  datatype Call =
    | CallSocket(stype: SockType)
    | CallBind(fd: nat, inet: bool)
    | CallConnect(fd: nat, family: Family, established: bool)
    | CallListen(fd: nat)
    | CallAccept(fd: nat, established: bool)
    | CallClose(fd: nat)
    | CallSend(fd: nat, linkDown: bool, dest: Destination)
    | CallReceive(fd: nat, linkDown: bool)
    | CallOpenFile
    | CallCloseFile(fd: nat)

  function Step(t: Table, c: Call): (r: Table)
    requires Inv(t)
    ensures Inv(r)
  {
    match c
    case CallSocket(stype) => Socket(t, stype).0
    case CallBind(fd, inet) => Bind(t, fd, inet).0
    case CallConnect(fd, family, established) => Connect(t, fd, family, established).0
    case CallListen(fd) => Listen(t, fd).0
    case CallAccept(fd, established) => Accept(t, fd, established).0
    case CallClose(fd) => Close(t, fd).0
    case CallSend(fd, linkDown, dest) => Send(t, fd, linkDown, dest).0
    case CallReceive(fd, linkDown) => Receive(t, fd, linkDown).0
    case CallOpenFile => OpenFile(t).0
    case CallCloseFile(fd) => CloseFile(t, fd).0
  }

  /** The tables after w5100_socket_init. */
  const INITIAL := Table(seq(OPEN_MAX, _ => BLANK), seq(SOCKETS, _ => FREE_SLOT))

  lemma InitialInv()
    ensures Inv(INITIAL)
  {
  }

  function Run(t: Table, calls: seq<Call>): (r: Table)
    requires Inv(t)
    ensures Inv(r)
    decreases calls
  {
    if calls == [] then t else Run(Step(t, calls[0]), calls[1..])
  }

  /** Call after call. */
  lemma {:induction false} RunConcat(t: Table, calls: seq<Call>, c: Call)
    requires Inv(t)
    ensures Run(t, calls + [c]) == Step(Run(t, calls), c)
    decreases calls
  {
    if calls == [] {
      assert Run(Step(t, c), []) == Step(t, c);
    } else {
      RunConcat(Step(t, calls[0]), calls[1..], c);
      assert (calls + [c])[1..] == calls[1..] + [c];
    }
  }

  /** The edges of the socket state machine. */
  predicate Edge(a: SockState, b: SockState) {
    a == b || match a
    case NONE => b == CREATED
    case CREATED => b == BOUND || b == CONNECTED || b == NONE
    case BOUND => b == LISTENING || b == NONE
    case LISTENING => b == ACCEPTED || b == NONE
    case ACCEPTED => b == LISTENING || b == DISCONNECTED || b == NONE
    case CONNECTED => b == DISCONNECTED || b == NONE
    case DISCONNECTED => b == NONE
  }

  /** Every call moves every slot along an edge, and a slot in use never changes type. */
  lemma StepAlongEdges(t: Table, c: Call, s: nat)
    requires Inv(t) && s < SOCKETS
    ensures Edge(t.slots[s].state, Step(t, c).slots[s].state)
    ensures t.slots[s].state != NONE ==> Step(t, c).slots[s].stype == t.slots[s].stype
  {
    hide DescriptorOk, FirstUnallocated, FillFd, Drop;
  }

  ghost function InUse(t: Table): set<nat>
    requires |t.files| == OPEN_MAX
  {
    set f: nat | f < OPEN_MAX && t.files[f].inUse
  }

  /** socket, accept and open are the only calls that take a descriptor, and take just
      the one they return; close gives back just the one it is given. */
  lemma DescriptorsConserved(t: Table, c: Call)
    requires Inv(t)
    ensures match c
            case CallSocket(stype) =>
              var (r, fd) := Socket(t, stype);
              InUse(r) == if fd == -1 then InUse(t) else InUse(t) + {fd}
            case CallAccept(fd, e) =>
              var (r, newfd) := Accept(t, fd, e);
              InUse(r) == if r == t then InUse(t) else InUse(t) + {newfd}
            case CallClose(fd) =>
              var (r, ret) := Close(t, fd);
              InUse(r) == if ret == 0 then InUse(t) - {fd} else InUse(t)
            case CallOpenFile =>
              var (r, fd) := OpenFile(t);
              InUse(r) == if fd == -1 then InUse(t) else InUse(t) + {fd}
            case CallCloseFile(fd) =>
              var (r, ret) := CloseFile(t, fd);
              InUse(r) == if ret == 0 then InUse(t) - {fd} else InUse(t)
            case _ => InUse(Step(t, c)) == InUse(t)
  {
    hide SlotOk, FirstFree;
  }

  /** close succeeds exactly on a descriptor that its slot records, and then no slot does. */
  lemma CloseForgets(t: Table, fd: nat)
    requires Inv(t)
    ensures Close(t, fd).1 == 0 <==> exists s: nat :: s < SOCKETS && Records(t.slots[s], fd)
    ensures Close(t, fd).1 == 0 ==> !Close(t, fd).0.files[fd].isOpen && !Close(t, fd).0.files[fd].inUse
    ensures Close(t, fd).1 in {0, -1} && (Close(t, fd).1 == -1 ==> Close(t, fd).0 == t)
    ensures Close(t, fd).1 == 0 ==> forall s: nat | s < SOCKETS :: !Records(Close(t, fd).0.slots[s], fd)
    ensures Close(t, fd).1 == 0 ==> forall s: nat, f: nat | s < SOCKETS && f != fd && f < OPEN_MAX ::
              Records(Close(t, fd).0.slots[s], f) ==> Records(t.slots[s], f)
  {
  }

  // ---- what each call does ----

  /** The socket behind a descriptor is of this type, in this state. */
  predicate IsSocket(t: Table, fd: nat, stype: SockType, state: SockState)
    requires Inv(t)
  {
    var g := GetSocket(t, fd);
    g.Some? && t.slots[g.value].stype == stype && t.slots[g.value].state == state
  }

  predicate IsOfType(t: Table, fd: nat, stype: SockType)
    requires Inv(t)
  {
    var g := GetSocket(t, fd);
    g.Some? && t.slots[g.value].stype == stype
  }

  /** What it means that a call returning r succeeds exactly on a condition: the socket is then
      in the new state, and nothing else has changed; otherwise nothing has. */
  predicate Decides(t: Table, fd: nat, r: (Table, int), succeeds: bool, state: SockState)
    requires Inv(t)
  {
    if !succeeds then r.0 == t && r.1 in {-1, 1}
    else
      var g := GetSocket(t, fd);
      && r.1 == 0 && g.Some? && r.0.files == t.files && |r.0.slots| == SOCKETS
      && r.0.slots[g.value] == t.slots[g.value].(state := state)
      && forall s | 0 <= s < SOCKETS && s != g.value :: r.0.slots[s] == t.slots[s]
  }

  /** bind is for new sockets, and listen for bound streams. */
  lemma BindAndListenExactly(t: Table, fd: nat, inet: bool)
    requires Inv(t)
    ensures Decides(t, fd, Bind(t, fd, inet), inet && (IsSocket(t, fd, Stream, CREATED) || IsSocket(t, fd, Dgram, CREATED)), BOUND)
    ensures Decides(t, fd, Listen(t, fd), IsSocket(t, fd, Stream, BOUND), LISTENING)
  {
  }

  /** connect is for new streams, and succeeds exactly when the connection is established; on a
      datagram socket it succeeds in any state, and binds a new one. */
  lemma ConnectExactly(t: Table, fd: nat, family: Family, established: bool)
    requires Inv(t)
    ensures !IsOfType(t, fd, Dgram) ==>
              Decides(t, fd, Connect(t, fd, family, established),
                      family == AF_INET && IsSocket(t, fd, Stream, CREATED) && established, CONNECTED)
    ensures forall state | IsSocket(t, fd, Dgram, state) ::
              Decides(t, fd, Connect(t, fd, family, established), family != AF_OTHER, if state == CREATED then BOUND else state)
  {
  }

  /** Data can be sent and received on a stream exactly when it is connected or accepted, and its
      listener or own descriptor is open. */
  lemma StreamRunsExactly(t: Table, fd: nat, linkDown: bool, dest: Destination)
    requires Inv(t) && !IsOfType(t, fd, Dgram) && !IsOfType(t, fd, Raw)
    ensures var runs := IsSocket(t, fd, Stream, CONNECTED) || (IsSocket(t, fd, Stream, ACCEPTED) && !Unattended(t, fd));
            && (Send(t, fd, linkDown, dest).1 == Runs <==> runs) && (Receive(t, fd, linkDown).1 == Runs <==> runs)
            && (runs && linkDown ==> Send(t, fd, linkDown, dest).0 == Receive(t, fd, linkDown).0)
            && (!runs || !linkDown ==> Send(t, fd, linkDown, dest).0 == t && Receive(t, fd, linkDown).0 == t)
  {
  }

  /** Datagrams can be sent on every open socket and received on it, and sending binds a new one. */
  lemma DatagramRunsExactly(t: Table, fd: nat, linkDown: bool, dest: Destination, state: SockState)
    requires Inv(t) && IsSocket(t, fd, Dgram, state)
    ensures Send(t, fd, linkDown, dest).1 == Runs <==> state != NONE && dest == Usable
    ensures Receive(t, fd, linkDown) == (t, if state != NONE then Runs else Fails)
    ensures var t' := Send(t, fd, linkDown, dest).0;
            if dest == Nowhere then t' == t else Decides(t, fd, (t', 0), true, if state == CREATED then BOUND else state)
  {
  }

  /** Nothing can be sent on a raw socket; receiving on an open one goes on until it times out. */
  lemma RawRunsExactly(t: Table, fd: nat, linkDown: bool, dest: Destination)
    requires Inv(t) && IsOfType(t, fd, Raw)
    ensures Send(t, fd, linkDown, dest) == (t, Fails)
    ensures Receive(t, fd, linkDown) == (t, if IsSocket(t, fd, Raw, CREATED) then Runs else NullPointer)
  {
  }

  /** A connection that is lost carries no more data, and its listener, if it had one, listens again. */
  lemma LostIsOver(t: Table, fd: nat, linkDown: bool, dest: Destination)
    requires Inv(t) && Receive(t, fd, true).1 == Runs && IsOfType(t, fd, Stream)
    ensures var t' := Receive(t, fd, true).0;
            && Send(t', fd, linkDown, dest).1 == Fails && Receive(t', fd, linkDown).1 == Fails
            && (IsSocket(t, fd, Stream, ACCEPTED) <==> IsSocket(t', fd, Stream, LISTENING))
            && (IsSocket(t, fd, Stream, CONNECTED) <==> IsSocket(t', fd, Stream, DISCONNECTED))
  {
  }

  /** socket takes the lowest free slot and descriptor, and fails exactly when there is not one of each. */
  lemma SocketExactly(t: Table, stype: SockType)
    requires Inv(t)
    ensures var (t', fd) := Socket(t, stype);
            && (fd == -1 <==> FirstFree(t.slots, 0) == -1 || FirstUnallocated(t.files, 3) == -1)
            && (fd != -1 ==> && fd == FirstUnallocated(t.files, 3) && IsSocket(t', fd, stype, CREATED)
                             && GetSocket(t', fd) == Some(FirstFree(t.slots, 0))
                             && t'.slots[FirstFree(t.slots, 0)].fdData == Some(fd)
                             && t'.files[fd].isOpen && !t'.files[fd].nonblock)
  {
  }

  /** accept succeeds exactly on a listener with a connection, when a descriptor is free: the
      lowest one, which leads to the same slot. Both descriptors can then be used. */
  lemma AcceptExactly(t: Table, fd: nat, established: bool)
    requires Inv(t)
    ensures var (t', newfd) := Accept(t, fd, established);
            if IsSocket(t, fd, Stream, LISTENING) && established && FirstUnallocated(t.files, 3) != -1 then
              && newfd == FirstUnallocated(t.files, 3) && GetSocket(t', newfd) == GetSocket(t, fd) == GetSocket(t', fd)
              && IsSocket(t', newfd, Stream, ACCEPTED) && t'.slots[GetSocket(t, fd).value].connData == Some(newfd)
              && t'.files[newfd].isOpen && !t'.files[newfd].nonblock
              && Send(t', newfd, false, Nowhere).1 == Runs && Receive(t', newfd, false).1 == Runs
            else t' == t && newfd in {-1, 1}
  {
  }

  /** A client: connect decides whether data can be transferred. */
  lemma ClientLife(t: Table, established: bool)
    requires Inv(t) && Socket(t, Stream).1 != -1
    ensures var (t1, fd) := Socket(t, Stream);
            var t2 := Connect(t1, fd, AF_INET, established).0;
            && (Send(t2, fd, false, Nowhere).1 == Runs <==> established)
            && (Receive(t2, fd, false).1 == Runs <==> established)
  {
    hide Socket, Connect, Send, Receive;
    SocketExactly(t, Stream);
    var (t1, fd) := Socket(t, Stream);
    ConnectExactly(t1, fd, AF_INET, established);
    StreamRunsExactly(Connect(t1, fd, AF_INET, established).0, fd, false, Nowhere);
  }

  /** open takes the lowest free descriptor, and fails exactly when there is none. */
  lemma OpenExactly(t: Table)
    requires Inv(t)
    ensures OpenFile(t).1 == FirstUnallocated(t.files, 3) && OpenFile(t).0.slots == t.slots
  {
  }

  /** close gives back what open took. */
  lemma CloseUndoesOpen(t: Table)
    requires Inv(t) && OpenFile(t).1 != -1
    ensures var (t1, fd) := OpenFile(t);
            var (t2, ret) := CloseFile(t1, fd);
            ret == 0 && InUse(t2) == InUse(t) && t2.slots == t.slots && Close(t1, fd).1 == -1
  {
  }

  /** Closing the descriptor that socket returned gives slot and descriptor back. */
  lemma CloseUndoesSocket(t: Table, stype: SockType)
    requires Inv(t) && Socket(t, stype).1 != -1
    ensures var (t1, fd) := Socket(t, stype);
            var (t2, ret) := Close(t1, fd);
            && ret == 0 && InUse(t2) == InUse(t)
            && forall s: nat | s < SOCKETS ::
                 t2.slots[s] == t.slots[s] || (t.slots[s].state == NONE && t2.slots[s].state == NONE)
  {
  }

  /** Closing the descriptor that accept returned leaves the listener as it was before,
      unless it still recorded an older connection. */
  lemma CloseUndoesAccept(t: Table, fd: nat)
    requires Inv(t) && GetSocket(t, fd).Some? && t.slots[GetSocket(t, fd).value].state == LISTENING
    requires Accept(t, fd, true).1 != -1
    ensures var (t1, newfd) := Accept(t, fd, true);
            var (t2, ret) := Close(t1, newfd);
            && ret == 0 && InUse(t2) == InUse(t)
            && (t2.slots == t.slots <==> t.slots[GetSocket(t, fd).value].connData == None)
  {
    var g := GetSocket(t, fd).value;
    assert t.slots[g := t.slots[g]] == t.slots;
  }

  // ---- what the code does not keep ----

  /** These calls meet a null pointer exactly on an accepted connection whose listener has been
      closed, and on what is left of a closed socket: of a datagram socket when sending with a
      usable destination, of a raw one when receiving. */
  lemma NullPointerExactly(t: Table, fd: nat, linkDown: bool, dest: Destination)
    requires Inv(t)
    ensures Send(t, fd, linkDown, dest).1 == NullPointer <==>
            Unattended(t, fd) || (IsLeftOver(t, fd, Dgram) && dest == Usable)
    ensures Receive(t, fd, linkDown).1 == NullPointer <==>
            Unattended(t, fd) || IsLeftOver(t, fd, Raw)
  {
  }

  /** An accepted connection without its listener. */
  predicate Unattended(t: Table, fd: nat)
    requires Inv(t)
  {
    var g := GetSocket(t, fd);
    g.Some? && t.slots[g.value].state == ACCEPTED && t.slots[g.value].fdData == None
  }

  /** The descriptor still leads to its slot, although the slot has been freed. */
  predicate IsLeftOver(t: Table, fd: nat, stype: SockType)
    requires Inv(t)
  {
    var g := GetSocket(t, fd);
    g.Some? && t.slots[g.value].state == NONE && t.slots[g.value].stype == stype
  }

  /** Every socket that has just been closed is such a left-over. */
  lemma ClosedSocket(t: Table, stype: SockType)
    requires Inv(t) && Socket(t, stype).1 != -1
    ensures var (t1, fd) := Socket(t, stype); IsLeftOver(Close(t1, fd).0, fd, stype)
  {
  }

  /** Two calls lead there, and the third meets the null pointer. */
  lemma LeftOverReachable()
    ensures Inv(INITIAL)
    ensures Send(Close(Socket(INITIAL, Dgram).0, 3).0, 3, false, Usable).1 == NullPointer
    ensures Receive(Close(Socket(INITIAL, Raw).0, 3).0, 3, false).1 == NullPointer
  {
    InitialInv();
    ClosedSocket(INITIAL, Dgram);
    ClosedSocket(INITIAL, Raw);
  }

  /** A server that closes its listener and goes on with the connection has it unattended. */
  lemma ClosedListener(t: Table, fd: nat)
    requires Inv(t) && fd < OPEN_MAX && IsListener(t, fd)
    requires Accept(t, fd, true).1 != -1
    ensures var (t1, connection) := Accept(t, fd, true); Unattended(Close(t1, fd).0, connection)
  {
  }

  predicate IsListener(t: Table, fd: nat)
    requires Inv(t)
  {
    var g := GetSocket(t, fd);
    g.Some? && t.slots[g.value].state == LISTENING && t.slots[g.value].fdData == Some(fd)
  }

  /** socket, bind and listen make a listener, on the lowest free descriptor. */
  lemma ServerSetUp(t: Table)
    requires Inv(t) && Socket(t, Stream).1 != -1
    ensures var (t1, fd) := Socket(t, Stream);
            var t2 := Listen(Bind(t1, fd, true).0, fd).0;
            IsListener(t2, fd) && t2.files == t1.files && fd == FirstUnallocated(t.files, 3)
  {
  }

  lemma NullPointerReachable()
    ensures Inv(INITIAL)
    ensures var t1 := Socket(INITIAL, Stream).0;
            var t2 := Listen(Bind(t1, 3, true).0, 3).0;
            var t3 := Close(Accept(t2, 3, true).0, 3).0;
            Send(t3, 4, false, Nowhere).1 == NullPointer && Receive(t3, 4, false).1 == NullPointer
  {
    hide Socket, Bind, Listen, Accept, Close, Send, Receive;
    var t2 := FirstServer();
    AcceptLowest(t2, 3);
    ClosedListener(t2, 3);
    NullPointerExactly(Close(Accept(t2, 3, true).0, 3).0, 4, false, Nowhere);
  }

  /** After three calls, descriptor 3 is a listener and those above are free. */
  lemma FirstServer() returns (t: Table)
    ensures Inv(INITIAL) && t == Listen(Bind(Socket(INITIAL, Stream).0, 3, true).0, 3).0
    ensures IsListener(t, 3) && NoLeak(t) && t.slots[GetSocket(t, 3).value].connData == None
    ensures t.files[3].inUse && forall f | 4 <= f < OPEN_MAX :: !t.files[f].inUse
  {
    InitialInv();
    ServerSetUp(INITIAL);
    var t1 := Socket(INITIAL, Stream).0;
    t := Listen(Bind(t1, 3, true).0, 3).0;
    assert t.files == t1.files;
  }

  /** accept takes the lowest free descriptor. */
  lemma AcceptLowest(t: Table, fd: nat)
    requires Inv(t) && IsListener(t, fd)
    ensures var (t1, newfd) := Accept(t, fd, true);
            && newfd == FirstUnallocated(t.files, 3)
            && (newfd != -1 ==> t1.files[newfd].inUse && forall f | 0 <= f < OPEN_MAX && f != newfd :: t1.files[f] == t.files[f])
  {
  }

  /** No descriptor of a socket is in use without a slot that records it. */
  ghost predicate NoLeak(t: Table)
    requires Inv(t)
  {
    forall f: nat {:trigger t.files[f]} | f < OPEN_MAX && t.files[f].inUse && t.files[f].mode == Sock ::
      t.files[f].slot.Some? && Records(t.slots[t.files[f].slot.value], f)
  }

  /** The calls that forget a connection the slot still records: accepting another one,
      and closing its listener when the connection is no longer in state ACCEPTED. */
  predicate Forgets(t: Table, c: Call)
    requires Inv(t)
  {
    match c
    case CallAccept(fd, established) =>
      var g := GetSocket(t, fd);
      && g.Some? && t.slots[g.value].state == LISTENING && t.slots[g.value].connData.Some?
      && established && FirstUnallocated(t.files, 3) != -1
    case CallClose(fd) =>
      var g := GetSocket(t, fd);
      && g.Some? && t.slots[g.value].fdData == Some(fd)
      && t.slots[g.value].state != ACCEPTED && t.slots[g.value].connData.Some?
    case _ => false
  }

  /** A call leaks a descriptor exactly when it is one of those. */
  lemma LeaksExactly(t: Table, c: Call)
    requires Inv(t) && NoLeak(t)
    ensures NoLeak(Step(t, c)) <==> !Forgets(t, c)
  {
    match c
    case CallAccept(fd, established) => LeaksByAccept(t, fd, established);
    case CallClose(fd) => LeaksByClose(t, fd);
    case _ => LeaksByOthers(t, c);
  }

  lemma LeaksByAccept(t: Table, fd: nat, established: bool)
    requires Inv(t) && NoLeak(t)
    ensures NoLeak(Accept(t, fd, established).0) <==> !Forgets(t, CallAccept(fd, established))
  {
    var r := Accept(t, fd, established).0;
    if Forgets(t, CallAccept(fd, established)) {
      var f := t.slots[GetSocket(t, fd).value].connData.value;
      assert r.files[f].inUse && r.files[f].mode == Sock;
    }
  }

  lemma LeaksByClose(t: Table, fd: nat)
    requires Inv(t) && NoLeak(t)
    ensures NoLeak(Close(t, fd).0) <==> !Forgets(t, CallClose(fd))
  {
    var r := Close(t, fd).0;
    if Forgets(t, CallClose(fd)) {
      var f := t.slots[GetSocket(t, fd).value].connData.value;
      assert r.files[f].inUse && r.files[f].mode == Sock;
    }
  }

  lemma LeaksByOthers(t: Table, c: Call)
    requires Inv(t) && NoLeak(t) && !c.CallAccept? && !c.CallClose?
    ensures NoLeak(Step(t, c))
  {
    hide DescriptorOk;
  }

  /** Losing an accepted connection makes the slot a listener again, which still records it. */
  lemma LostConnection(t: Table, fd: nat)
    requires Inv(t) && fd < OPEN_MAX && IsListener(t, fd) && Accept(t, fd, true).1 != -1
    ensures var (t1, connection) := Accept(t, fd, true);
            var t2 := Receive(t1, connection, true).0;
            && t2.files == t1.files && IsListener(t2, fd)
            && t2.slots[GetSocket(t2, fd).value].connData == Some(connection)
  {
  }

  /** So a server that accepts a connection, loses it and accepts the next one leaks a descriptor. */
  lemma LeakReachable()
    ensures Inv(INITIAL)
    ensures var t1 := Socket(INITIAL, Stream).0;
            var t2 := Listen(Bind(t1, 3, true).0, 3).0;
            var t3 := Receive(Accept(t2, 3, true).0, 4, true).0;
            NoLeak(t3) && !NoLeak(Accept(t3, 3, true).0)
  {
    hide Socket, Bind, Listen, Accept, Receive, NoLeak, SlotOk, DescriptorOk;
    var t2 := FirstServer();
    AcceptLowest(t2, 3);
    LostConnection(t2, 3);
    var t := Accept(t2, 3, true).0;
    var t3 := Receive(t, 4, true).0;
    LeaksExactly(t2, CallAccept(3, true));
    LeaksExactly(t, CallReceive(4, true));
    LeaksExactly(t3, CallAccept(3, true));
    assert !t3.files[5].inUse;
  }
}
