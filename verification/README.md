# Verification model of a POSIX layer over the W5100

The repository gives a microcontroller with a W5100 Ethernet chip a small POSIX layer: sockets,
signals, clocks, timers, `select`, and on top of them a DHCP client, a DNS resolver and an SNTP
client. This project models the stateful core of that layer and proves what it is relied on for.
`dafny verify dfyconfig.toml` checks all of it.

| files | part of the system |
|---|---|
| `RingMemory`, `W5100Chip`, `W5100Driver` | the transmit and receive rings of `src/w5100_socket.c`, with the chip at work between any two accesses of the driver |
| `SocketTable`, `SocketLayer` | descriptors (`src/file.c`) and socket slots, a listener and its connection sharing one slot |
| `SignalQueue`, `SignalWakeup` | the signal queue of `src/signal.c`, and the protocol that raises PendSV |
| `SystemClock`, `Timers`, `Timespecs` | clock reads against the SysTick interrupt, the timer scheduler, time arithmetic |
| `Select` | `fd_set` and `pselect` |
| `DhcpOptions`, `DhcpMessage`, `DhcpStates`, `DhcpSafety`, `DhcpClient` | option parser and message builder, the client's state machine and its runs |
| `DnsName`, `DnsMessage` | name encoder and decoder, and the walk over the answers |
| `Sntp` | NTP time stamps and the clock estimate |
| `Bytes`, `Counting`, `Wrappers` | bytes and network order, sets of numbers, optional values |

Code that changes things in place is a class or a method over an array; the functions it is proved
equal to, and the lemmas about runs, are on values. What hardware or network decide is
nondeterministic or a parameter: `Chip.Run` is any amount of the chip's own work, `TimePasses` any
number of counts and ticks, `polls` what each round of a blocking call finds, a DHCP `World` says which sends succeed and which datagrams arrive. The
chip itself is assumed to work as its rings say, to read and write its 16-bit registers at once, and
to change nothing but what it transmits and what it stores.

## What the code does not keep

Each of these is proved with the exact condition under which it happens.

- `SIG_BLOCK` reads and writes `procmask` in separate steps and raises no PendSV. Interrupted in
  between, it can unblock a queued signal and lose its wake-up, exactly when nothing else covers that
  signal (`SignalWakeup.TornBlockExactly`, `TornBlockReachable`); every run without that keeps all
  wake-ups, and no such call is torn as long as no other one changes the mask (`UninterruptedIsClean`).
- `send`, `sendto` and `recvfrom` read flags through `fd_data`, which can be null. It is on a connection
  whose listener has been closed, although `close` provides for that case; and on a closed socket, to
  which its descriptor still leads, where `sendto` on a datagram socket and `recvfrom` on a raw one do
  not test the state (`SocketTable.NullPointerExactly`, `NullPointerReachable`, `LeftOverReachable`).
- Returning to LISTENING on a lost connection leaves `connection_data` set; the next `accept`, or
  closing the listener, then leaks that descriptor (`SocketTable.LeaksExactly`, `LeakReachable`).
- The comment at `src/dhcp_client.c:724` says that T2 passes only after T1. It fails exactly for a
  lease of one second given out while the clock shows zero: T1 is then zero, which stands for a time
  that was not set (`DhcpOptions.LeaseOrderExactly`).
- An ACK without server, gateway or subnet is refused, but only after it has replaced the lease
  (`DhcpSafety.RefusedExactly`); the attempt then ends in INIT (`RefusedRestarts`), so no bound state
  ever shows it (`AlwaysSafe`).
- A reply of type DHCPREQUEST, which no server sends, moves a client in SELECTING to REQUESTING, as if
  it had sent its request (`DhcpSafety.OtherTypesExactly`).
- `timespec_to_ntp` overflows 32 bits exactly from 999981056 ns on (`Sntp.RoundTripExactly`), and an
  exchange that starts in those last 19 us of a second is half a second off (`Sntp.ExchangeClose`).
- The DNS encoder writes over-long labels, empty labels and trailing dots as they come; they are
  exactly the names that do not survive the round trip (`DnsName.RoundTripExactly`). It does not check
  the size of its buffer (`DnsMessage.QueryFitsExactly`).
- The DNS decoder follows pointers anywhere. It either ends within as many steps as the message has
  bytes, or never does (`DnsName.EndsSoonOrNever`); with the pointers of RFC 1035 it ends
  (`BackwardEnds`). The branches for malformed labels are dead code (`NoMalformedLabel`).
- A datagram longer than the caller's buffer is copied in full; the model stops there
  (`W5100Driver.ReadFrame`).

## Model

| member | source | states |
|---|---|---|
| RingMemory.WindowsExactly | src/w5100_socket.c:804-840 | the eight windows follow each other and fill 0x4000 to 0x7FFF |
| RingMemory.MaskOfPtr | src/w5100_socket.c:804-840 | masking the 16-bit pointer register gives the offset of the unbounded stream position |
| RingMemory.PtrDistance | src/w5100_socket.c:984-992 | the wrapped difference of two pointers is the true distance, as long as it fits 16 bits |
| RingMemory.HoldsSnoc | src/w5100_socket.c:1014-1043 | writing the next cell appends a byte to the window's contents and overwrites none of it |
| W5100Chip.FreeIsRoom | src/w5100_socket.c:984-992 | Sn_TX_FSR, from wrapped pointers, is the room behind the bytes not yet transmitted |
| W5100Chip.ReceivedIsUnread | src/w5100_socket.c:897-905 | Sn_RX_RSR is the number of unread bytes |
| W5100Chip.StageKeeps | src/w5100_socket.c:1014-1043 | a byte written behind the staged ones, when there is room, keeps the ring's invariant |
| W5100Chip.CommitKeeps | src/w5100_socket.c:1006-1011 | SEND hands over exactly the staged bytes |
| W5100Chip.TakeKeeps | src/w5100_socket.c:1014-1068 | the byte the chip fetches is the oldest accepted one it has not yet taken |
| W5100Chip.StoreKeeps | src/w5100_socket.c:908-981 | a byte the chip stores is appended to the unread ones |
| W5100Chip.ReleaseKeeps | src/w5100_socket.c:951-956 | RECV gives back the bytes read, on a datagram socket a whole frame, and keeps frame boundaries |
| W5100Chip.OthersKeep | src/w5100_socket.c:818-840 | a write into one 2 KiB window leaves the streams in all other windows alone |
| W5100Chip.FrameKeeps | src/w5100_socket.c:1143-1171 | a stored datagram keeps the unread bytes a sequence of whole frames |
| W5100Chip.Chip.Run | src/w5100_socket.c:1014-1068 | any interleaving of the chip's own steps keeps every ring valid and only transmits or stores |
| W5100Driver.SplitCopy | src/w5100_socket.c:1022-1041 | the two parts of a split copy are the cells of consecutive stream positions, before and after the wrap |
| W5100Driver.WriteBufSure | src/w5100_socket.c:1014-1043 | with the chip running at every byte, the data is staged behind the stream, only in this socket's window |
| W5100Driver.WriteBuf | src/w5100_socket.c:1046-1068 | as many leading bytes as fit are handed over: all of them, or at least the room there was |
| W5100Driver.ManageDisconnect | src/w5100_socket.c:842-889 | with a listener both rings are emptied; without one, nothing is changed but by the chip |
| W5100Driver.Send | src/w5100_socket.c:1242-1271 | the return value is exactly the number of leading bytes handed over, also when the connection is lost; at least as many as there was room for, and all of them unless the call is non-blocking, times out, loses the connection or is still polling |
| W5100Driver.SendAll | src/w5100_socket.c:1189-1274 | over any sequence of sends until the connection is lost, what is on the wire is a prefix of the concatenated accepted parts, each a prefix of its buffer; together they are all of the buffers, or fill the room there was |
| W5100Driver.SendTo | src/w5100_socket.c:1300-1346 | the whole datagram enters the ring or nothing does; it does when there is room, and otherwise the call has a reason to give up |
| W5100Driver.ReadBufSure | src/w5100_socket.c:908-937 | the bytes copied are those of the stream at the read position, wherever they wrap, while the chip stores more |
| W5100Driver.ReadBuf | src/w5100_socket.c:959-981 | the oldest unread bytes, at most len and no fewer than were there, are delivered and given back |
| W5100Driver.Recv | src/w5100_socket.c:1120-1184 | bytes that are there are delivered at once, in order, as many as fit; with none a blocking call waits, until it times out or loses the connection |
| W5100Driver.RecvAll | src/w5100_socket.c:1120-1184 | any sequence of receives until the connection is lost delivers the stored stream with nothing lost, repeated or reordered, and all that was there or was asked for |
| W5100Driver.DeliveredTwice | src/w5100_socket.c:959-981 | two consecutive deliveries make one |
| W5100Driver.FirstFrame | src/w5100_socket.c:1153-1167 | what lies at the read pointer is the header and payload of the first stored datagram |
| W5100Driver.ReadFrame | src/w5100_socket.c:1148-1171 | exactly the first datagram is delivered, wherever header or payload wrap, and reading goes on at the next frame boundary |
| W5100Driver.ReceiveFrame | src/w5100_socket.c:1141-1172 | one turn delivers nothing only when there was no datagram, else the first one, its address and port, and nothing else |
| W5100Driver.RecvFrom | src/w5100_socket.c:1120-1184 | so does the retry loop, which delivers a datagram that is there at once, and otherwise waits or has a reason to give up |
| W5100Driver.RecvFromAll | src/w5100_socket.c:1120-1184 | any sequence of calls delivers exactly the stored datagrams, whole and in order, and with large enough buffers one per call |
| SocketTable.RecordedOnce | src/w5100_socket.c:260-402 | no descriptor is recorded twice, in one slot or in two |
| SocketTable.FirstUnallocated | src/file.c:52-63 | the lowest descriptor that is not allocated, or -1 exactly when there is none |
| SocketTable.FirstFree | src/w5100_socket.c:218-235 | the lowest free slot, or -1 exactly when there is none |
| SocketTable.Socket | src/w5100_socket.c:340-402 | keeps the slot invariant; a new descriptor leads to a slot, a failure changes nothing |
| SocketTable.Bind | src/w5100_socket.c:600-656 | keeps the slot invariant |
| SocketTable.Connect | src/w5100_socket.c:472-598 | keeps the slot invariant |
| SocketTable.Listen | src/w5100_socket.c:658-691 | keeps the slot invariant |
| SocketTable.Accept | src/w5100_socket.c:693-767 | keeps the slot invariant, with two descriptors on one slot |
| SocketTable.Close | src/w5100_socket.c:260-337 | keeps the slot invariant, for the listener, the connection and any other descriptor |
| SocketTable.Disconnect | src/w5100_socket.c:843-889 | keeps the slot invariant |
| SocketTable.Send | src/w5100_socket.c:1189-1355 | send and sendto keep the slot invariant, when the link is found down too |
| SocketTable.Receive | src/w5100_socket.c:1070-1187 | recvfrom keeps the slot invariant, when the link is found down too |
| SocketTable.InitialInv | src/w5100_socket.c:1625-1640 | the invariant holds after w5100_socket_init |
| SocketTable.Run | src/w5100_socket.c:213-402 | the invariant holds after every sequence of calls |
| SocketTable.RunConcat | src/w5100_socket.c:213-402 | a run is one call after the other |
| SocketTable.SocketExactly | src/w5100_socket.c:340-402 | socket takes the lowest free slot and descriptor, for a new blocking socket of its type, and fails exactly when there is not one of each |
| SocketTable.BindAndListenExactly | src/w5100_socket.c:600-691 | bind succeeds exactly on a new stream or datagram socket and listen on a bound stream; they change the state of that socket and nothing else |
| SocketTable.ConnectExactly | src/w5100_socket.c:472-598 | connect succeeds on a new stream exactly when the connection is established, and on a datagram socket always, which it binds; it changes nothing else, and nothing when it fails |
| SocketTable.AcceptExactly | src/w5100_socket.c:713-765 | accept succeeds exactly on a listener with a connection when a descriptor is free: the lowest one, which shares the slot and can be used at once |
| SocketTable.StreamRunsExactly | src/w5100_socket.c:1078-1274 | a stream carries data exactly when it is connected, or accepted with its listener open |
| SocketTable.DatagramRunsExactly | src/w5100_socket.c:1094-1104 | an open datagram socket receives in every state, and sends to every usable destination, which binds a new one |
| SocketTable.RawRunsExactly | src/w5100_socket.c:1213-1217 | nothing can be sent on a raw socket, and receiving on an open one polls |
| SocketTable.LostIsOver | src/w5100_socket.c:842-889 | a lost connection carries no more data; its slot listens again exactly when it was accepted |
| SocketTable.ClientLife | src/w5100_socket.c:472-541 | after socket and connect, data can be sent and received exactly when the connection was established |
| SocketTable.OpenExactly | src/file.c:46-65 | open takes the lowest free descriptor, and fails exactly when there is none |
| SocketTable.CloseUndoesOpen | src/file.c:46-73 | close after open restores the used descriptors, and is not a socket's close |
| SocketTable.StepAlongEdges | src/w5100_socket.c:260-402 | every call moves every slot along an edge of the state graph and keeps the type of a used one |
| SocketTable.DescriptorsConserved | src/file.c:46-73 | each call takes just the descriptor it returns, or gives back just the one it is given, or neither |
| SocketTable.CloseForgets | src/w5100_socket.c:260-337 | close succeeds exactly on a recorded descriptor, and makes no slot record that one, nor any new one; it fails without changing anything |
| SocketTable.CloseUndoesSocket | src/w5100_socket.c:260-402 | close after socket restores the used descriptors and all slots |
| SocketTable.CloseUndoesAccept | src/w5100_socket.c:299-329 | close after accept restores the listener exactly when it recorded no older connection |
| SocketTable.NullPointerExactly | src/w5100_socket.c:1078-1355 | send, sendto and recvfrom meet a null pointer exactly on an accepted connection without a listener, and on a freed slot when sending a datagram to a usable address or receiving on a raw socket |
| SocketTable.ClosedSocket | src/w5100_socket.c:238-298 | every descriptor just closed still leads to its freed slot |
| SocketTable.LeftOverReachable | src/w5100_socket.c:1293-1320 | two calls lead there, and sendto or recvfrom then meets the null pointer |
| SocketTable.ClosedListener | src/w5100_socket.c:277-298 | accepting a connection and closing the listener always leads there |
| SocketTable.NullPointerReachable | src/w5100_socket.c:1218-1234 | a connection without a listener is reached from the initial state by five calls |
| SocketTable.ServerSetUp | src/w5100_socket.c:600-691 | socket, bind and listen make a listener on the lowest free descriptor |
| SocketTable.LeaksExactly | src/w5100_socket.c:864-877 | a call leaks a descriptor exactly when it accepts over, or closes the listener of, a connection still recorded |
| SocketTable.LostConnection | src/w5100_socket.c:864-877 | losing an accepted connection makes the slot a listener that still records it |
| SocketTable.LeakReachable | src/w5100_socket.c:693-767 | a server that accepts a connection, loses it and accepts the next one leaks a descriptor |
| SocketLayer.Sockets.FileAlloc | src/file.c:46-65 | the loop is the function of the same name on values |
| SocketLayer.Sockets.SocketAlloc | src/w5100_socket.c:213-236 | finds and claims the first free slot |
| SocketLayer.Sockets.Socket | src/w5100_socket.c:340-402 | the in-place steps, with the slot given back when there is no descriptor, amount to the function on values |
| SocketLayer.Sockets.Bind | src/w5100_socket.c:600-656 | as the function on values, and keeps the invariant |
| SocketLayer.Sockets.Connect | src/w5100_socket.c:574-598 | as the function on values, and keeps the invariant |
| SocketLayer.Sockets.Listen | src/w5100_socket.c:658-691 | as the function on values, and keeps the invariant |
| SocketLayer.Sockets.Accept | src/w5100_socket.c:693-767 | a blocking call on a listener returns exactly when some poll finds a connection, a non-blocking one after the first; it does what the function says for that answer |
| SocketLayer.Sockets.Close | src/w5100_socket.c:260-337 | as the function on values, and keeps the invariant |
| SocketLayer.Sockets.ManageDisconnect | src/w5100_socket.c:843-889 | as the function on values, and keeps the invariant |
| SocketLayer.Sockets.Send | src/w5100_socket.c:1189-1355 | as the function on values, and keeps the invariant |
| SocketLayer.Sockets.Receive | src/w5100_socket.c:1070-1187 | as the function on values, and keeps the invariant |
| SignalQueue.OrderExactly | src/signal.c:146 | the wrapped order test tells age, both ways round, exactly within 2^31 signals |
| SignalQueue.BeforeIsOlder | src/signal.c:140-153 | between two queued signals the test prefers the older |
| SignalQueue.TakeFirst | src/signal.c:116-168 | removing the oldest signal of a set takes the first of the selected ones and leaves the others in order |
| SignalQueue.FullExactly | src/signal.c:92-111 | all slots are taken exactly when the queue has its full length |
| SignalQueue.AppendKeeps | src/signal.c:94-98 | filling any free slot with the next order number appends to the queue that the array stands for |
| SignalQueue.RemoveKeeps | src/signal.c:155-159 | clearing a slot removes just that signal from the queue |
| SignalQueue.Queue.Enqueue | src/signal.c:83-114 | appends, or fails exactly when the queue is full |
| SignalQueue.Queue.FindOldest | src/signal.c:121-154 | the scan finds the oldest signal of the set, or none exactly when there is none |
| SignalQueue.Queue.Dequeue | src/signal.c:116-168 | removes the oldest signal of the set and no other |
| SignalQueue.DrainInOrder | src/signal.c:564-572 | whatever handlers queue or mask, the signals of each number are delivered in the order they were queued, none lost and none twice |
| SignalQueue.DrainUnderMask | src/signal.c:170-180 | each signal is delivered while `procmask`, as the handlers before it have left it, does not hold it |
| SignalQueue.DrainLeavesMasked | src/signal.c:170-180 | in the end `procmask` holds every signal that is left |
| SignalQueue.DrainByMask | src/signal.c:564-572 | with handlers that do neither, of each number all signals are delivered, or none exactly when `procmask` holds it |
| SignalQueue.DrainQuietly | src/signal.c:564-572 | with handlers that do neither, exactly the unblocked signals are delivered, oldest first, and exactly the blocked ones kept, in order |
| SignalQueue.Queue.React | src/signal.c:83-114 | the signals a handler queues are appended as far as there are slots |
| SignalQueue.Queue.PendSvHandler | src/signal.c:564-572 | the loop over the array is that drain of the queue, and terminates when handlers react finitely often |
| SignalQueue.Queue.SigPending | src/signal.c:462-489 | the set of signals that are queued and blocked |
| SignalWakeup.StepKeepsAwake | src/signal.c:335-375 | every step but a torn SIG_BLOCK store keeps each deliverable signal covered by something that will look for it |
| SignalWakeup.RunKeepsAwake | src/signal.c:558-572 | so does every run, in any interleaving of enqueues, mask changes, PendSV entry and the drain loop |
| SignalWakeup.AfterConcat | src/signal.c:558-572 | a run is one step after the other |
| SignalWakeup.EnqueueExactly | src/signal.c:90-111 | a signal is queued last, with PendSV pending, or dropped exactly when there are 32 |
| SignalWakeup.MaskCallsExactly | src/signal.c:351-367 | unless another call changes the mask, SIG_BLOCK adds the set to it, SIG_UNBLOCK takes it away and SIG_SETMASK puts it there; the last two then make PendSV pending |
| SignalWakeup.HandlerTakesUnblocked | src/signal.c:170-180 | the handler takes the oldest signal that is not blocked, and returns exactly when there is none, whatever is queued meanwhile |
| SignalWakeup.QuietMeansBlocked | src/signal.c:564-572 | once nothing is pending or under way, every signal still queued is blocked |
| SignalWakeup.UninterruptedIsClean | src/signal.c:351-355 | whatever runs between its load and its store, a SIG_BLOCK is not torn unless another call changes the mask |
| SignalWakeup.TornBlockExactly | src/signal.c:351-355 | in every state, the store loses a wake-up exactly when it unblocks a queued signal that nothing covers |
| SignalWakeup.TornBlockIdle | src/signal.c:351-355 | with nothing else going on, exactly when a queued signal was blocked after the load and outside its set |
| SignalWakeup.TornBlockReachable | src/signal.c:351-355 | such a store is reached by seven steps from the initial state |
| Timespecs.NanosOf | src/timespec.c:25-75 | sums and differences are those of the instants |
| Timespecs.Compare | src/timespec.c:44-75 | the sign of the result orders normal times |
| Timespecs.InfinityIsLast | src/timespec.c:23 | TIMESPEC_INFINITY, although out of range, compares as later than every time |
| SystemClock.FractionInPeriod | src/clock_gettime_systick.c:68-76 | for every frequency the fraction grows as the counter falls and never exceeds one period; it is positive exactly up to 1 GHz |
| SystemClock.FractionIsTime | src/clock_gettime_systick.c:68-76 | it is the time that the counts elapsed take, short by less than a nanosecond for each |
| SystemClock.ReadingsNeverDecrease | src/clock_gettime_systick.c:68-76 | readings at successive instants never decrease, across ticks too |
| SystemClock.FlagsEqualExactly | src/clock_gettime_systick.c:111-120 | the 32-bit flag is the same again exactly after a multiple of 2^32 ticks |
| SystemClock.Clock.Attempt | src/clock_gettime_systick.c:111-120 | with ticks between any two reads, also of the two words, equal flags mean an untorn time and a fraction of the same period |
| SystemClock.Clock.GetTime | src/clock_gettime_systick.c:93-147 | a result is what either clock was set to, plus a millisecond for each tick since and the fraction, at an instant during the call, in the last tick period; a retry happens only after a tick |
| SystemClock.Clock.ReadTwice | src/clock_gettime_systick.c:93-197 | successive reads of a clock never decrease unless it is set, and those of CLOCK_MONOTONIC whatever the other is set to |
| SystemClock.Clock.SetThenGet | src/clock_gettime_systick.c:149-235 | what is read after CLOCK_REALTIME has been set is the time set plus what has passed since |
| SystemClock.Clock.SetTime | src/clock_gettime_systick.c:149-197 | on success the clock shows the given time, although ticks may carry into a half-written one; all other calls change nothing |
| SystemClock.Clock.Tick | src/clock_gettime_systick.c:219-235 | a tick moves both clocks on by a millisecond |
| SystemClock.Clock.TimePasses | src/clock_gettime_systick.c:219-235 | so do any number of ticks, each |
| Timers.ExpiredNotOverdue | src/timers.c:254-269 | an expired timer is disarmed or has a whole interval left, so it is not overdue |
| Timers.Table.NextExpiring | src/timers.c:189-210 | the armed timer that expires first, the first listed among equals, or none exactly when none is armed |
| Timers.Table.Manage | src/timers.c:272-302 | terminates; exactly the overdue timers fire, each once, in order of expiry; none is left overdue; the hardware timer gets the minimum |
| Timers.NextOverdue | src/timers.c:278-301 | the next expiring timer is overdue exactly when one is left to fire, and then it is the first of those |
| Timers.FireKeeps | src/timers.c:285-289 | firing it moves it from those still to fire to the end of those fired |
| Timers.Table.Create | src/timers.c:116-137 | the first free entry is claimed and nothing else changes; it fails exactly when there is none, or for another clock |
| Timers.Table.GetTime | src/timers.c:433-461 | the time left of an armed timer, zero of another |
| Timers.Table.SetTime | src/timers.c:379-431 | writes the setting, returns the old one, and leaves no timer overdue; a positive relative time is then just what is left |
| Timers.SetThenLeft | src/timers.c:403-415 | a relative time read back at once is what was set |
| Timers.OverdueExactly | src/timers.c:86-93 | a timer is overdue from when its own clock shows its time of expiry, and what is left is the difference |
| Timers.SetExactly | src/timers.c:403-419 | a timer expires when its clock shows the absolute time set, or the relative time has passed; zero disarms it |
| Select.Touches | src/select.c:41-89 | setting or clearing a bit of the mask adds or removes just that descriptor |
| Select.FdSet.Zero | src/select.c:91-97 | FD_ZERO empties the set |
| Select.FdSet.Add | src/select.c:77-89 | FD_SET adds a descriptor within limits and ignores others |
| Select.FdSet.Clear | src/select.c:41-53 | FD_CLR removes just the descriptor |
| Select.PselectOne | src/select.c:100-154 | keeps the descriptor in the sets for which it is ready, and fails exactly when it is in one and cannot be polled |
| Select.PselectTentative | src/select.c:157-184 | restricts the sets to ready descriptors below nfds and counts those left; fails exactly when one cannot be polled |
| Select.SweepNext | src/select.c:167-181 | the next descriptor extends restriction and count by one |
| Select.Pselect | src/select.c:186-242 | after any number of failed passes the result speaks of the sets passed in; 0 is returned only from the deadline on, and nothing was ready before |
| Select.NoTimeoutNoZero | src/select.c:200-203 | without a timeout the deadline never comes |
| Select.DeadlineExactly | src/select.c:204-231 | with a timeout it comes exactly when so much time has passed |
| DhcpOptions.ParseOptions | src/dhcp_client.c:173-258 | the loop is the parser function |
| DhcpOptions.ParseIsFold | src/dhcp_client.c:184-255 | on every well-formed list of options, pads included, the parser is the fold of their meanings, the last of a kind winning |
| DhcpOptions.LenErrorExactly | src/dhcp_client.c:205-248 | a length error is reported exactly when some option read has a length other than RFC 2132 gives it |
| DhcpOptions.LeaseExactly | src/dhcp_client.c:217-235 | T1 is half of the lease after now, rounded down to a second, and T2 seven eighths, rounded up; both are infinite when the lease is |
| DhcpOptions.LeaseOrderExactly | src/dhcp_client.c:217-235 | T1 is not after T2 for every lease and clock, except exactly for one second at clock zero |
| DhcpOptions.FoldFields | src/dhcp_client.c:203-252 | by the codes of RFC 2132: type, server, subnet and gateway are those of the last option of each kind |
| DhcpOptions.FoldDns | src/dhcp_client.c:245-248 | the DNS server is the first of the last list of them |
| DhcpOptions.FoldLease | src/dhcp_client.c:213-236 | the times are those of the last lease option, or not set |
| DhcpMessage.PutHeader | src/dhcp_client.c:310-332 | the field writes cover the 240 bytes of the header and none disturbs another |
| DhcpMessage.BuildRequest | src/dhcp_client.c:430-490 | all 548 bytes are defined, whatever the buffer held, as header, options, end marker and zeros |
| DhcpMessage.RequestReadsBack | src/dhcp_client.c:311-361 | the message holds its options, and the client's own parser reads back type, infinite lease and server, without a length error |
| DhcpMessage.CheckReply | src/dhcp_client.c:141-171 | a reply passes exactly when operation, hardware type and length, transaction, address and magic all match |
| DhcpMessage.RequestEchoed | src/dhcp_client.c:141-171 | a request turned into a reply passes for its own client and transaction and for no other |
| DhcpMessage.ReplyPasses | src/dhcp_client.c:141-171 | every reply in the form of RFC 2131 passes, for the client and transaction it names and no other |
| DhcpMessage.RequestBytes | src/dhcp_client.c:430-490 | the message is its header, its options and zeros, 548 bytes |
| DhcpMessage.HeaderFields | src/dhcp_client.c:310-332 | every field of the header at its offset in RFC 2131 |
| DhcpStates.CheckOptions | src/dhcp_client.c:260-292 | no error exactly when server, gateway and subnet are given |
| DhcpSafety.ParseFromLease | src/dhcp_client.c:213-236 | T1 and T2 come from one lease option, or there was none |
| DhcpSafety.GrantedOrdered | src/dhcp_client.c:280-287 | T1 is not after T2 in whatever a reply grants, but for that one case |
| DhcpSafety.ReplyIsRead | src/dhcp_client.c:529-554 | a server's reply with any well-formed options is taken by the client and transaction it names and no other, with its address and options |
| DhcpSafety.GrantIsRead | src/dhcp_client.c:556-582 | what is granted is, field by field, the address assigned and the last option of each kind |
| DhcpSafety.GrantedLease | src/dhcp_client.c:213-236 | with T1 at half and T2 at seven eighths of the lease option, after the time of receipt, or infinite |
| DhcpSafety.DueByLease | src/dhcp_client.c:703-745 | a bound client rests until half of the lease that the last accepted ACK granted, a renewing one until seven eighths |
| DhcpSafety.RequestFields | src/dhcp_client.c:430-490 | every byte of a request in every state: the client's address exactly when it is bound, DISCOVER exactly in INIT, and server and address wanted exactly in SELECTING |
| DhcpSafety.TakeKeeps | src/dhcp_client.c:538-603 | a reply taken keeps the client safe: it becomes bound only with everything an accepted ACK grants |
| DhcpSafety.RecvKeeps | src/dhcp_client.c:505-606 | so does a whole receive, with any other datagrams before it |
| DhcpSafety.OnceKeeps | src/dhcp_client.c:683-698 | so does an attempt, which starts again after any receive error |
| DhcpSafety.StepKeeps | src/dhcp_client.c:767-788 | so does a step, with up to three attempts |
| DhcpSafety.AlwaysSafe | src/dhcp_client.c:767-788 | in every run only INIT, SELECTING, REQUESTING, BOUND and RENEWING occur; when bound, the binding is exactly what the last accepted ACK granted, with server, gateway and subnet |
| DhcpSafety.NextEventExactly | src/dhcp_client.c:703-745 | the number of whole seconds left to T1, or T2 when renewing |
| DhcpSafety.StepResult | src/dhcp_client.c:767-788 | a positive result means bound, with the deadline not past that many seconds on but past one second later; an error means starting again, or nothing changed because nothing was sent; otherwise it is the number of seconds left |
| DhcpSafety.RestsUntilDue | src/dhcp_client.c:767-788 | as long as a second is left, a step does nothing else |
| DhcpSafety.AckBinds | src/dhcp_client.c:683-698 | from SELECTING, REQUESTING, BOUND and RENEWING, once due, a usable ACK among any noise binds the client to what it grants, and the step returns how long it may rest |
| DhcpSafety.NakExactly | src/dhcp_client.c:583-588 | a NAK leads to INIT, without address and server |
| DhcpSafety.OtherTypesExactly | src/dhcp_client.c:589-601 | a reply of another type changes nothing, except that one of type REQUEST moves SELECTING on |
| DhcpSafety.ShortReplies | src/dhcp_client.c:529-553 | an empty datagram is skipped, a header without options ends the wait |
| DhcpSafety.TransitionsExactly | src/dhcp_client.c:376-428 | the transitions, by message types of RFC 2132 |
| DhcpSafety.RetriesExactly | src/dhcp_client.c:683-698 | the first attempt that succeeds ends the transaction, or else the last one |
| DhcpSafety.SilenceRestarts | src/dhcp_client.c:683-698 | three requests without reply lead to INIT, with the error of a system call |
| DhcpSafety.NoSocket | src/dhcp_client.c:677-681 | without a socket nothing changes |
| DhcpSafety.NoiseSkipped | src/dhcp_client.c:529-553 | datagrams for others, malformed or out of date do not change what the reply does |
| DhcpSafety.RefusedExactly | src/dhcp_client.c:556-602 | a reply is refused exactly when it is the offer or ACK waited for and lacks server, gateway or subnet, with the error for the first of these; a refused ACK has replaced the lease, a refused offer nothing |
| DhcpSafety.RefusedRestarts | src/dhcp_client.c:690-696 | the attempt in which a reply is refused ends in INIT |
| DhcpSafety.TwoStepsBind | src/dhcp_client.c:556-602 | from INIT, an OFFER and an ACK among any noise bind the client in two steps, in one transaction, with the offered server and address named in the request |
| DhcpClient.Client.UpdateState | src/dhcp_client.c:377-428 | the state update in place is the function on values |
| DhcpClient.Client.SendRequest | src/dhcp_client.c:430-503 | the message is the one of the state it is sent in, and only a send that succeeds moves on |
| DhcpClient.Client.RecvReply | src/dhcp_client.c:505-606 | the loop does what the function on values says of the datagrams that arrive |
| DhcpClient.Client.Reply | src/dhcp_client.c:538-603 | the field updates amount to those of the function |
| DhcpClient.Client.Transaction | src/dhcp_client.c:670-701 | three attempts, up to the first that succeeds |
| DhcpClient.Client.Step | src/dhcp_client.c:767-788 | as the function on values |
| DhcpClient.Client.Bind | src/dhcp_client.c:790-800 | returns at the first step after which the client is bound, with what the last accepted ACK granted |
| DnsName.NoMalformedLabel | src/getaddrinfo.c:131-147 | the two top bits make a pointer, zero the end, and every other byte a string |
| DnsName.OffsetMasks | src/getaddrinfo.c:149-164 | length and offset are the low 6 and 14 bits |
| DnsName.ParseName | src/getaddrinfo.c:205-266 | for every name whose end is reached, it writes the dot-joined labels of the expanded name, and the sizing pass returns the number of bytes the copying pass writes |
| DnsName.BackwardEnds | src/getaddrinfo.c:220-223 | the end is reached when every pointer leads before the start of the segment it ends |
| DnsName.EndsSoonOrNever | src/getaddrinfo.c:218-264 | the end is reached within as many steps as the message has bytes, or never |
| DnsName.NameSize | src/getaddrinfo.c:233-257 | an expanded name is at most 64 times as long as the message, so the 16-bit size never wraps on a 512-byte one |
| DnsName.NewName | src/getaddrinfo.c:274-296 | the block allocated is filled exactly, as long as the 16-bit size does not wrap |
| DnsName.SkipLabels | src/getaddrinfo.c:172-203 | the position after the name's own last segment |
| DnsName.NameInBounds | src/getaddrinfo.c:172-203 | a name that can be decoded can be skipped within the message |
| DnsName.EncodeSize | src/getaddrinfo.c:354-371 | the encoded name is one byte longer than the name, two without a trailing dot |
| DnsName.DecodeGood | src/getaddrinfo.c:205-266 | labels of 1 to 63 bytes are decoded as they were encoded |
| DnsName.DecodeUpTo | src/getaddrinfo.c:205-266 | a bad label ends or garbles the name, but not what comes before it |
| DnsName.ValidExactly | src/getaddrinfo.c:354-371 | a name is valid exactly when the labels it is split into are good and join to it again |
| DnsName.RoundTripExactly | src/getaddrinfo.c:354-371 | encoding and decoding gives a name back exactly when no label is empty or over 63 bytes and it does not end in a dot |
| DnsName.CompressedName | src/getaddrinfo.c:220-223 | a name that ends in a pointer has its own labels and then those of the name pointed to, and is skipped to the end of the pointer |
| DnsName.DottedConcat | src/getaddrinfo.c:238-257 | in dotted form the two are joined by a dot |
| DnsMessage.PutName | src/getaddrinfo.c:354-371 | the loops write the encoding of the name, labels with their lengths put in afterwards |
| DnsMessage.BuildQuery | src/getaddrinfo.c:334-382 | the bytes sent are header, name, type and class |
| DnsMessage.QueryFitsExactly | src/getaddrinfo.c:337-374 | the query fits its buffer exactly for names of 494 bytes, or 495 with a trailing dot |
| DnsMessage.QueryReadsBack | src/getaddrinfo.c:334-408 | decoding the query for a valid name gives the name, and skipping its question leads exactly to the end |
| DnsMessage.QueryFields | src/getaddrinfo.c:343-374 | every byte of a query but its name: ID, recursion desired, one question of type A and class IN |
| DnsMessage.AnswersQuery | src/getaddrinfo.c:435-442 | a message with a whole header is not passed over exactly when its ID is that of the query |
| DnsMessage.ResourceReadsBack | src/getaddrinfo.c:471-522 | a record in the form of RFC 1035 is read as what it is |
| DnsMessage.LaidOutInOrder | src/getaddrinfo.c:463-523 | records one after the other lie each where the one before ends |
| DnsMessage.AnswersReadBack | src/getaddrinfo.c:463-523 | the answers found in a message of such records are their addresses, in order |
| DnsMessage.ResponseReadsBack | src/getaddrinfo.c:443-523 | a response of the question and such records can be read, and gives exactly the addresses among them |
| DnsMessage.ReplyCodeExactly | src/getaddrinfo.c:443-453 | the result by the response code of RFC 1035 |
| DnsMessage.SkipQuestions | src/getaddrinfo.c:384-408 | the position after all questions |
| DnsMessage.ReadRecord | src/getaddrinfo.c:471-480 | name and address of an A/IN record; any other is stepped over by its RDLENGTH |
| DnsMessage.ReadAnswers | src/getaddrinfo.c:463-523 | the list is exactly the A/IN records in wire order, with decoded names; names still allocated are exactly those owned by one node each |
| DnsMessage.RecvResponse | src/getaddrinfo.c:410-536 | the first message of sufficient length with the right ID decides, by its code; an accepted one gives its address list |
| Sntp.LsrrRounds | src/sntp.c:72-88 | rounds to the nearest unit, but down in the topmost half unit |
| Sntp.EpochIs1970 | src/sntp.c:101 | the offset between the epochs of NTP and Unix |
| Sntp.ToTimespecClose | src/sntp.c:90-109 | no overflow, a normal result, within 64 us of the fraction for all 2^32 of them |
| Sntp.ToNtpFitsExactly | src/sntp.c:129-131 | the product fits 32 bits exactly below 999981056 ns |
| Sntp.RoundTripExactly | src/sntp.c:90-135 | to NTP and back keeps the seconds, and the nanoseconds within 70 us exactly in that range |
| Sntp.HalfIsFloor | src/sntp.c:137-147 | floor halving of the whole time, also of negative ones |
| Sntp.EstimateClose | src/sntp.c:149-168 | at most 1 ns below T4 + ((T2 - T1) + (T3 - T4)) / 2, never above |
| Sntp.EstimateRecovers | src/sntp.c:149-168 | with equal delays, the server's clock to within 1 ns |
| Sntp.ExchangeClose | src/sntp.c:191-246 | through the time stamps of a whole exchange, to within 100 us exactly when T1 is not in the last 19 us of a second, and otherwise half a second off |

## Left out

- Times whose seconds overflow 32 bits.
- Liveness: calls that poll or block are followed for any finite number of polls, attempts or passes.
- W5100Driver.ReadFrame: a datagram longer than the buffer ends in `Overrun`, because the copy then leaves the caller's memory.
- SystemClock.Clock.TimePasses: less than 2^30 ticks, twelve days, between two accesses of a call, since the 32-bit flag cannot tell 2^32 ticks from none.
- SignalQueue.Queue.Enqueue: the live order numbers must span less than 2^31, which the order test needs and the code takes for granted.
- SignalQueue.Queue.PendSvHandler: handlers react to finitely many signals; a handler that always queues another one keeps the loop going for ever.
- Timers.Table.Manage: the clocks stand still during the call and notification does not touch the table; `hw_timer_start` is an empty stub, and the model records what it is asked to do.
- Select.Pselect: three different sets, none of them null, and an oracle for `poll`; the signal mask is ignored, as in the code.
- DhcpOptions.ParseOptions: the clock stands still while one message is parsed.
- DhcpClient.Client.SendRequest: the transaction number of `gen_xid` is arbitrary.
- DhcpClient.Client.Transaction: creating and configuring the socket either succeeds or fails.
- DnsName.ParseName: a name whose end is never reached, or only beyond the message, for which the code does not return or leaves the buffer.
- DnsMessage.BuildQuery: queries that do not fit the 512-byte buffer, which the code writes past.
- DnsMessage.ReadAnswers: records that lie within the buffer; the code does not check. The socket address of a node is allocated with it and not tracked by itself.
- Return codes of `send` and `recvfrom` on error paths, which of -1 and 1 other socket calls fail with, `errno`, socket options, addresses of sockets and polling; what a RAW socket transfers, which the code does not implement.
- Negative descriptors, for which `file_struct_get` indexes before its table.
- `sigtimedwait` results, default signal actions, `raise`, `kill` and user callbacks; a set of signals stands for its bit mask.
- Time synchronisation from within `clock_gettime`, `clock_getres`, timer overruns and deletion.
- `getaddrinfo` hints and `freeaddrinfo`; the sockets of DNS and SNTP.
- FatFs wrappers, SPI, SD card, USART and fault handlers: register plumbing or thin wrappers.
