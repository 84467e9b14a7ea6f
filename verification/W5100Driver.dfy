/**
 The buffer part of the socket driver (src/w5100_socket.c:896-1068 and the loops
 of recvfrom, send and sendto), interleaved with the chip at every access.

 A blocking call may poll for ever. Its polls parameter says for how many rounds it is
 followed, and what each would find; what is proved holds for every number of them.
 */
module W5100Driver {
  import opened Bytes
  import opened RingMemory
  import opened W5100Chip

  /** What a round that transfers nothing finds: the connection lost, or the timeout over. */
  datatype Poll = Poll(linkDown: bool, timeoutEnded: bool)

  /** Why a call stops; Waiting stands for one that is still polling. */
  datatype End = Complete | NonBlocking | TimedOut | Lost | TooLong | Waiting

  /** Rounds after which a call on a stream does not go on if they transfer nothing. */
  function Stops(polls: seq<Poll>): nat {
    if polls == [] then 0
    else
      var last := polls[|polls| - 1];
      Stops(polls[..|polls| - 1]) + if last.linkDown || last.timeoutEnded then 1 else 0
  }

  lemma StopsNext(polls: seq<Poll>, n: nat)
    requires n < |polls|
    ensures Stops(polls[..n + 1]) == Stops(polls[..n]) + if polls[n].linkDown || polls[n].timeoutEnded then 1 else 0
  {
    assert polls[..n + 1][..n] == polls[..n];
  }

  /** A call on a stream that has not done its work stops in a round for a reason that it finds
      there, or goes on polling: in every round that found a reason it has transferred something.
      A lost connection comes before anything else. */
  ghost predicate Reason(end: End, nonblock: bool, polls: seq<Poll>, used: nat, moved: nat) {
    match end
    case NonBlocking => nonblock && used < |polls| && (moved == 0 ==> !polls[used].linkDown)
    case TimedOut => !nonblock && used < |polls| && polls[used].timeoutEnded && !polls[used].linkDown
    case Lost => used < |polls| && polls[used].linkDown
    case Waiting => used == |polls| && (nonblock ==> polls == []) && Stops(polls) <= moved
    case _ => true
  }

  /** For datagrams, the connection is not looked at, and one transfer is all. */
  ghost predicate DatagramReason(end: End, nonblock: bool, polls: seq<Poll>, used: nat) {
    match end
    case NonBlocking => nonblock && used < |polls|
    case TimedOut => !nonblock && used < |polls| && polls[used].timeoutEnded
    case Lost => false
    case Waiting => used == |polls| && (nonblock ==> polls == []) && forall i | 0 <= i < |polls| :: !polls[i].timeoutEnded
    case _ => true
  }

  /** No transfer to this ring is under way. */
  ghost predicate TxIdle(r: TxRing) {
    r.staged == [] && r.wr == Ptr(r.origin + |r.accepted|)
  }

  /** The same stream, with data handed over; the chip may have taken more of it, in order. */
  ghost predicate Extended(r: TxRing, r0: TxRing, data: seq<Byte>) {
    r.origin == r0.origin && r.accepted == r0.accepted + data && r0.wire <= r.wire <= r.accepted
  }

  /** The chip taking more of it does not change that. */
  lemma ExtendedRan(r2: TxRing, r1: TxRing, r0: TxRing, data: seq<Byte>)
    requires Extended(r1, r0, data) && TxRan(r2, r1) && r2.wire <= r2.accepted
    ensures Extended(r2, r0, data)
  {
  }

  lemma ExtendedTwice(r2: TxRing, r1: TxRing, r0: TxRing, d1: seq<Byte>, d2: seq<Byte>)
    requires Extended(r1, r0, d1) && Extended(r2, r1, d2)
    ensures Extended(r2, r0, d1 + d2)
  {
  }

  lemma StartsExtended(chip: Chip, s: nat)
    requires chip.Valid() && s < SOCKETS
    ensures Extended(chip.tx[s], chip.tx[s], [])
  {
  }

  ghost predicate RxIdle(r: RxRing) {
    r.claimed == 0
  }

  /** The n cells from stream position pos on lie in one piece, at addr. */
  ghost predicate OnePiece(base: nat, pos: nat, n: nat, addr: nat) {
    addr == Cell(base, pos) && pos % 0x800 + n <= 0x800
  }

  /** Where the copies of read_buf_sure and write_buf_sure go: up to the end of the
      window, and the rest from its start. */
  lemma SplitCopy(base: nat, pos: nat, n: nat, n1: nat)
    requires n <= 0x800 && n1 == if pos % 0x800 + n > 0x800 then 0x800 - pos % 0x800 else n
    ensures n1 <= n && OnePiece(base, pos, n1, base + pos % 0x800)
    ensures n1 < n ==> OnePiece(base, pos + n1, n - n1, base)
  {
    if n1 < n {
      CellAfter(base, pos, n1);
    }
  }

  // ---- transmit ----

  /** w5100_write_mem into the transmit window, one byte at a time. */
  method WriteMem(chip: Chip, s: nat, addr: nat, data: seq<Byte>)
    requires chip.Valid() && s < SOCKETS
    requires var r := chip.tx[s];
             && r.wr == Ptr(r.origin + |r.accepted|)
             && |r.accepted| + |r.staged| - |r.wire| + |data| <= 0x800
             && (data == [] || OnePiece(TxBase(s), r.origin + |r.accepted| + |r.staged|, |data|, addr))
    modifies chip
    ensures OnlyWindow(chip.mem, old(chip.mem), s)
    ensures chip.RanButTx(old(chip.tx), old(chip.rx), s)
    ensures TxRan(chip.tx[s], old(chip.tx[s]).(staged := old(chip.tx[s].staged) + data))
  {
    hide RxRing.Ok, Holds;
    ghost var r0 := chip.tx[s];
    for i := 0 to |data|
      invariant OnlyWindow(chip.mem, old(chip.mem), s)
      invariant chip.RanButTx(old(chip.tx), old(chip.rx), s)
      invariant TxRan(chip.tx[s], r0.(staged := r0.staged + data[..i]))
    {
      CellAfter(TxBase(s), r0.origin + |r0.accepted| + |r0.staged|, i);
      assert data[..i + 1] == data[..i] + [data[i]];
      chip.WriteByte(s, addr + i, data[i]);
      chip.Run();
    }
    assert data[..|data|] == data;
  }

  /** write_buf_sure: the copy, split where the window ends. */
  method WriteBufSure(chip: Chip, s: nat, buf: seq<Byte>, pwrite: nat) returns (pstop: nat)
    requires chip.Valid() && s < SOCKETS && TxIdle(chip.tx[s])
    requires pwrite == chip.tx[s].wr
    requires |chip.tx[s].accepted| - |chip.tx[s].wire| + |buf| <= 0x800
    modifies chip
    ensures OnlyWindow(chip.mem, old(chip.mem), s)
    ensures chip.RanButTx(old(chip.tx), old(chip.rx), s)
    ensures TxRan(chip.tx[s], old(chip.tx[s]).(staged := buf))
    ensures pstop == Ptr(chip.tx[s].origin + |chip.tx[s].accepted| + |buf|)
  {
    ghost var pos := chip.tx[s].origin + |chip.tx[s].accepted|;
    MaskOfPtr(pos);
    PtrAdvance(pos, |buf|);
    var offset := pwrite % 0x800;
    var towrite1 := if |buf| + offset > 0x800 then 0x800 - offset else |buf|;
    SplitCopy(TxBase(s), pos, |buf|, towrite1);
    WriteMem(chip, s, TxBase(s) + offset, buf[..towrite1]);
    WriteMem(chip, s, TxBase(s), buf[towrite1..]);
    assert buf[..towrite1] + buf[towrite1..] == buf;
    pstop := (pwrite + |buf|) % 0x1_0000;
  }

  /** write_buf_len. The chip may free more afterwards. */
  method WriteBufLen(chip: Chip, s: nat) returns (nfree: nat)
    requires chip.Valid() && s < SOCKETS
    modifies chip
    ensures OnlyWindow(chip.mem, old(chip.mem), s)
    ensures chip.Ran(old(chip.tx), old(chip.rx))
    ensures old(chip.tx[s].Room()) <= nfree <= chip.tx[s].Room()
  {
    chip.Run();
    FreeIsRoom(chip.tx[s], chip.mem, TxBase(s));
    nfree := chip.tx[s].Free();
    chip.Run();
  }

  /** write_buf_send: Sn_TX_WR, then the SEND command. */
  method WriteBufSend(chip: Chip, s: nat, pstop: nat)
    requires chip.Valid() && s < SOCKETS
    requires var r := chip.tx[s]; pstop == Ptr(r.origin + |r.accepted| + |r.staged|)
    modifies chip
    ensures OnlyWindow(chip.mem, old(chip.mem), s)
    ensures chip.RanButTx(old(chip.tx), old(chip.rx), s)
    ensures TxRan(chip.tx[s], Commit(old(chip.tx[s]).(wr := pstop)))
  {
    chip.WriteTxWr(s, pstop);
    chip.Run();
    chip.CommandSend(s);
    chip.Run();
  }

  /** write_buf: as many leading bytes as there is room for, then SEND. */
  method WriteBuf(chip: Chip, s: nat, buf: seq<Byte>) returns (n: nat)
    requires chip.Valid() && s < SOCKETS && TxIdle(chip.tx[s])
    modifies chip
    ensures OnlyWindow(chip.mem, old(chip.mem), s)
    ensures chip.RanButTx(old(chip.tx), old(chip.rx), s) && TxIdle(chip.tx[s])
    ensures n <= |buf| && (n == |buf| || n >= old(chip.tx[s].Room()))
    ensures Extended(chip.tx[s], old(chip.tx[s]), buf[..n])
  {
    var nfree := WriteBufLen(chip, s);
    n := 0;
    if nfree > 0 {
      n := if |buf| > nfree then nfree else |buf|;
      var pstop := WriteBufSure(chip, s, buf[..n], chip.tx[s].wr);
      WriteBufSend(chip, s, pstop);
    }
  }

  /**
   manage_disconnect, once the connection is known to be lost. A socket with a listener is
   opened again, with empty rings, whose contents are gone; tx and rx are the rings before.
   */
  method ManageDisconnect(chip: Chip, s: nat, listener: bool) returns (ghost tx: TxRing, ghost rx: RxRing)
    requires chip.Valid() && s < SOCKETS
    modifies chip
    ensures OnlyWindow(chip.mem, old(chip.mem), s)
    ensures chip.RanButSocket(old(chip.tx), old(chip.rx), s)
    ensures TxRan(tx, old(chip.tx[s])) && RxRan(rx, old(chip.rx[s]))
    ensures tx.wire <= tx.accepted && rx.consumed <= |rx.stored|
    ensures !listener ==> TxRan(chip.tx[s], tx) && RxRan(chip.rx[s], rx)
    ensures listener ==> chip.tx[s].accepted == [] && TxIdle(chip.tx[s]) && RxIdle(chip.rx[s]) && chip.rx[s].consumed == 0
  {
    chip.Run(); // DISCON, until the status is CLOSED
    tx, rx := chip.tx[s], chip.rx[s];
    if listener {
      chip.CommandOpen(s);
      chip.Run(); // LISTEN
    }
  }

  /**
   The loop of send on a stream socket. The result is exactly the number of leading bytes of buf
   that were handed over, to the ring r of this connection, even when it is lost. It is at least
   what there was room for, and a blocking call goes on until all of buf has been handed over.
   */
  method Send(chip: Chip, s: nat, buf: seq<Byte>, nonblock: bool, listener: bool, polls: seq<Poll>)
      returns (ret: nat, end: End, used: nat, ghost r: TxRing)
    requires chip.Valid() && s < SOCKETS && TxIdle(chip.tx[s])
    modifies chip
    ensures OnlyWindow(chip.mem, old(chip.mem), s)
    ensures ret <= |buf| && Extended(r, old(chip.tx[s]), buf[..ret])
    ensures polls != [] ==> ret == |buf| || ret >= old(chip.tx[s].Room())
    ensures (end == Complete <==> ret == |buf|) && end != TooLong && Reason(end, nonblock, polls, used, ret)
    ensures end != Lost ==> chip.RanButTx(old(chip.tx), old(chip.rx), s) && TxIdle(chip.tx[s]) && r == chip.tx[s]
    ensures end == Lost ==> chip.RanButSocket(old(chip.tx), old(chip.rx), s)
    ensures end == Lost && listener ==> chip.tx[s].accepted == [] && TxIdle(chip.tx[s])
  {
    hide TxRing.Ok, RxRing.Ok, Extended, TxIdle, TxRing.Room;
    ret, used := 0, 0;
    StartsExtended(chip, s);
    assert buf[..0] == [];
    while ret < |buf| && used < |polls|
      invariant ret <= |buf| && used <= |polls|
      invariant OnlyWindow(chip.mem, old(chip.mem), s)
      invariant chip.RanButTx(old(chip.tx), old(chip.rx), s) && TxIdle(chip.tx[s])
      invariant Extended(chip.tx[s], old(chip.tx[s]), buf[..ret])
      invariant used == 0 ==> ret == 0 && chip.tx[s] == old(chip.tx[s])
      invariant used > 0 ==> !nonblock && (ret == |buf| || ret >= old(chip.tx[s].Room()))
      invariant Stops(polls[..used]) <= ret
    {
      ghost var r1 := chip.tx[s];
      var written := WriteBuf(chip, s, buf[ret..]);
      ExtendedTwice(chip.tx[s], r1, old(chip.tx[s]), buf[..ret], buf[ret..][..written]);
      assert buf[..ret] + buf[ret..][..written] == buf[..ret + written];
      ret := ret + written;
      var poll := polls[used];
      StopsNext(polls, used);
      if written > 0 {
        if nonblock {
          return ret, if ret == |buf| then Complete else NonBlocking, used, chip.tx[s];
        }
      } else if poll.linkDown {
        r := chip.tx[s];
        ghost var tx, rx := ManageDisconnect(chip, s, listener);
        ExtendedRan(tx, r, old(chip.tx[s]), buf[..ret]);
        return ret, Lost, used, tx;
      } else if nonblock {
        return ret, NonBlocking, used, chip.tx[s];
      } else if poll.timeoutEnded {
        return ret, TimedOut, used, chip.tx[s];
      }
      used := used + 1;
    }
    assert used == |polls| ==> polls[..used] == polls;
    return ret, if ret == |buf| then Complete else Waiting, used, chip.tx[s];
  }

  /** The loop of sendto on a datagram socket: all of buf, or nothing; and nothing only if buf is
      too long for the ring, or there is not room enough at first and a reason to give up. */
  method SendTo(chip: Chip, s: nat, buf: seq<Byte>, nonblock: bool, polls: seq<Poll>) returns (end: End, used: nat)
    requires chip.Valid() && s < SOCKETS && TxIdle(chip.tx[s])
    modifies chip
    ensures OnlyWindow(chip.mem, old(chip.mem), s)
    ensures chip.RanButTx(old(chip.tx), old(chip.rx), s) && TxIdle(chip.tx[s])
    ensures Extended(chip.tx[s], old(chip.tx[s]), if end == Complete then buf else [])
    ensures (end == TooLong <==> |buf| > 0x800) && end != Lost && DatagramReason(end, nonblock, polls, used)
    ensures |buf| <= old(chip.tx[s].Room()) && polls != [] ==> end == Complete
  {
    hide RxRing.Ok, Holds;
    used := 0;
    if |buf| > 0x800 {
      return TooLong, 0; // EMSGSIZE
    }
    while used < |polls|
      invariant OnlyWindow(chip.mem, old(chip.mem), s)
      invariant chip.Ran(old(chip.tx), old(chip.rx))
      invariant used <= |polls| && (used > 0 ==> !nonblock && |buf| > old(chip.tx[s].Room()))
      invariant forall i | 0 <= i < used :: !polls[i].timeoutEnded
    {
      var nfree := WriteBufLen(chip, s);
      if nfree >= |buf| {
        var n := WriteBuf(chip, s, buf);
        assert buf[..n] == buf;
        return Complete, used;
      } else if nonblock {
        return NonBlocking, used;
      } else if polls[used].timeoutEnded {
        return TimedOut, used;
      }
      used := used + 1;
    }
    end := Waiting;
  }

  function Concat(parts: seq<seq<Byte>>): seq<Byte> {
    if parts == [] then [] else Concat(parts[..|parts| - 1]) + parts[|parts| - 1]
  }

  lemma ConcatNone()
    ensures Concat([]) == []
  {
  }

  lemma ConcatSnoc(parts: seq<seq<Byte>>, part: seq<Byte>)
    ensures Concat(parts + [part]) == Concat(parts) + part
  {
    assert (parts + [part])[..|parts|] == parts;
  }

  /** Handing over data takes no more room than it has bytes. */
  lemma RoomLeft(r: TxRing, r0: TxRing, data: seq<Byte>)
    requires Extended(r, r0, data)
    ensures r.Room() >= r0.Room() - |data|
  {
  }

  /** What the sends accepted, and why each stopped. */
  ghost predicate Parts(parts: seq<seq<Byte>>, bufs: seq<seq<Byte>>, ends: seq<End>) {
    && |parts| == |ends| <= |bufs|
    && (forall i | 0 <= i < |parts| :: parts[i] <= bufs[i] && (ends[i] == Complete <==> parts[i] == bufs[i]))
    && (forall i | 0 <= i < |ends| - 1 :: ends[i] != Lost)
  }

  /**
   Any sequence of sends on a connection, with the chip running all the time, until it is lost:
   what the chip has put on the wire is a prefix of the bytes the calls said they accepted, and
   they accepted all they were given, or at least what there was room for.
   */
  method SendAll(chip: Chip, s: nat, bufs: seq<seq<Byte>>, nonblock: bool, listener: bool, polls: seq<seq<Poll>>)
      returns (parts: seq<seq<Byte>>, ends: seq<End>, ghost r: TxRing)
    requires chip.Valid() && s < SOCKETS && TxIdle(chip.tx[s]) && |polls| == |bufs|
    modifies chip
    ensures OnlyWindow(chip.mem, old(chip.mem), s)
    ensures chip.RanButSocket(old(chip.tx), old(chip.rx), s)
    ensures Parts(parts, bufs, ends)
    ensures |parts| == |bufs| || (ends != [] && ends[|ends| - 1] == Lost)
    ensures Extended(r, old(chip.tx[s]), Concat(parts))
    ensures (forall i | 0 <= i < |polls| :: polls[i] != []) ==> parts == bufs || |Concat(parts)| >= old(chip.tx[s].Room())
    ensures (forall i | 0 <= i < |ends| :: ends[i] != Lost) ==> r == chip.tx[s]
  {
    hide TxRing.Ok, RxRing.Ok, TxIdle, Extended, Concat, TxRing.Room;
    parts, ends, r := [], [], chip.tx[s];
    StartsExtended(chip, s);
    ConcatNone();
    for i := 0 to |bufs|
      invariant OnlyWindow(chip.mem, old(chip.mem), s)
      invariant chip.RanButTx(old(chip.tx), old(chip.rx), s) && TxIdle(chip.tx[s])
      invariant Parts(parts, bufs, ends) && |parts| == i && forall j | 0 <= j < i :: ends[j] != Lost
      invariant r == chip.tx[s]
      invariant Extended(r, old(chip.tx[s]), Concat(parts))
      invariant (forall j | 0 <= j < |polls| :: polls[j] != []) ==> parts == bufs[..i] || |Concat(parts)| >= old(chip.tx[s].Room())
    {
      ghost var r1 := r;
      RoomLeft(r, old(chip.tx[s]), Concat(parts));
      var n, end, used;
      n, end, used, r := Send(chip, s, bufs[i], nonblock, listener, polls[i]);
      ExtendedTwice(r, r1, old(chip.tx[s]), Concat(parts), bufs[i][..n]);
      ConcatSnoc(parts, bufs[i][..n]);
      assert bufs[..i + 1] == bufs[..i] + [bufs[i]];
      parts, ends := parts + [bufs[i][..n]], ends + [end];
      if end == Lost {
        return;
      }
    }
    assert bufs[..|bufs|] == bufs;
  }

  // ---- receive ----

  /** Stream positions pos.. of a receive ring, up to n of them, are unread. */
  ghost predicate Readable(r: RxRing, pos: nat, n: nat) {
    r.consumed <= pos && pos + n <= |r.stored|
  }

  /** w5100_read_byte: until it is given back, an unread byte stays where the chip stored it. */
  method ReadByte(chip: Chip, s: nat, addr: nat, ghost pos: nat) returns (b: Byte)
    requires chip.Valid() && s < SOCKETS && Readable(chip.rx[s], pos, 1)
    requires addr == Cell(RxBase(s), chip.rx[s].origin + pos)
    modifies chip
    ensures chip.Ran(old(chip.tx), old(chip.rx))
    ensures b == chip.rx[s].stored[pos]
  {
    ghost var r := chip.rx[s];
    assert r.stored[r.consumed..][pos - r.consumed] == r.stored[pos];
    b := chip.mem[addr];
    chip.Run();
  }

  /** w5100_read_mem from the receive window, one byte at a time. */
  method ReadMem(chip: Chip, s: nat, addr: nat, n: nat, ghost pos: nat) returns (data: seq<Byte>)
    requires chip.Valid() && s < SOCKETS
    requires Readable(chip.rx[s], pos, n)
    requires n == 0 || OnePiece(RxBase(s), chip.rx[s].origin + pos, n, addr)
    modifies chip
    ensures chip.Ran(old(chip.tx), old(chip.rx))
    ensures data == old(chip.rx[s].stored)[pos..pos + n]
  {
    hide TxRing.Ok, Holds;
    ghost var r0 := chip.rx[s];
    data := [];
    for i := 0 to n
      invariant chip.Ran(old(chip.tx), old(chip.rx))
      invariant data == r0.stored[pos..pos + i]
    {
      CellAfter(RxBase(s), r0.origin + pos, i);
      var b := ReadByte(chip, s, addr + i, pos + i);
      data := data + [b];
    }
  }

  /** read_buf_sure: the copy, split where the window ends. */
  method ReadBufSure(chip: Chip, s: nat, n: nat, pread: nat, ghost pos: nat) returns (data: seq<Byte>, pstop: nat)
    requires chip.Valid() && s < SOCKETS
    requires Readable(chip.rx[s], pos, n) && pread == Ptr(chip.rx[s].origin + pos)
    modifies chip
    ensures chip.Ran(old(chip.tx), old(chip.rx))
    ensures data == old(chip.rx[s].stored)[pos..pos + n]
    ensures pstop == Ptr(chip.rx[s].origin + pos + n)
  {
    hide TxRing.Ok, Holds;
    ghost var r0 := chip.rx[s];
    ghost var p := r0.origin + pos;
    MaskOfPtr(p);
    PtrAdvance(p, n);
    var offset := pread % 0x800;
    var toread1 := if offset + n > 0x800 then 0x800 - offset else n;
    SplitCopy(RxBase(s), p, n, toread1);
    data := ReadMem(chip, s, RxBase(s) + offset, toread1, pos);
    var data2 := ReadMem(chip, s, RxBase(s), n - toread1, pos + toread1);
    assert data2 == r0.stored[pos + toread1..pos + n];
    data := data + data2;
    pstop := (pread + n) % 0x1_0000;
  }

  /** read_buf_len. The chip may store more afterwards. */
  method ReadBufLen(chip: Chip, s: nat) returns (toread: nat)
    requires chip.Valid() && s < SOCKETS
    modifies chip
    ensures chip.Ran(old(chip.tx), old(chip.rx))
    ensures |old(chip.rx[s].Unread())| <= toread <= |chip.rx[s].Unread()|
  {
    chip.Run();
    ReceivedIsUnread(chip.rx[s], chip.mem, RxBase(s));
    toread := chip.rx[s].Received();
    chip.Run();
  }

  /** read_buf_recv: Sn_RX_RD, n bytes on, then the RECV command. */
  method ReadBufRecv(chip: Chip, s: nat, pstop: nat, n: nat)
    requires chip.Valid() && s < SOCKETS && n <= |chip.rx[s].Unread()|
    requires pstop == Ptr(chip.rx[s].origin + chip.rx[s].consumed + n)
    requires var r := chip.rx[s]; r.dgram ==> r.frames != [] && n == |r.frames[0].Bytes()|
    modifies chip
    ensures chip.RanButRx(old(chip.tx), old(chip.rx), s)
    ensures RxRan(chip.rx[s], Release(old(chip.rx[s]).(rd := pstop, claimed := n)))
  {
    chip.WriteRxRd(s, pstop, n);
    chip.Run();
    chip.CommandRecv(s);
    chip.Run();
  }

  /** read_buf on a stream socket: the oldest unread bytes, which are given back. */
  method ReadBuf(chip: Chip, s: nat, len: nat) returns (data: seq<Byte>)
    requires chip.Valid() && s < SOCKETS && RxIdle(chip.rx[s]) && !chip.rx[s].dgram
    modifies chip
    ensures chip.RanButRx(old(chip.tx), old(chip.rx), s) && RxIdle(chip.rx[s]) && !chip.rx[s].dgram
    ensures |data| <= len && (|data| == len || |data| >= |old(chip.rx[s].Unread())|)
    ensures Delivered(chip.rx[s], old(chip.rx[s]), data)
  {
    hide TxRing.Ok, Holds;
    var toread := ReadBufLen(chip, s);
    data := [];
    if toread != 0 {
      var n := if len > toread then toread else len;
      ghost var pos := chip.rx[s].consumed;
      var pstop;
      data, pstop := ReadBufSure(chip, s, n, chip.rx[s].rd, pos);
      ReadBufRecv(chip, s, pstop, n);
    }
  }

  /** The same stream, with data taken from where reading had stopped. */
  ghost predicate Delivered(r: RxRing, r0: RxRing, data: seq<Byte>) {
    && r.origin == r0.origin && r0.stored <= r.stored
    && r.consumed == r0.consumed + |data| <= |r.stored|
    && data == r.stored[r0.consumed..r.consumed]
  }

  lemma StartsDelivered(chip: Chip, s: nat)
    requires chip.Valid() && s < SOCKETS
    ensures Delivered(chip.rx[s], chip.rx[s], [])
  {
  }

  /** The chip storing more, or none, does not change what has been delivered. */
  lemma DeliveredRan(r2: RxRing, r1: RxRing, r0: RxRing, data: seq<Byte>)
    requires Delivered(r1, r0, data) && RxRan(r2, r1)
    ensures Delivered(r2, r0, data)
  {
  }

  /**
   The loop of recvfrom on a stream socket: bytes that are there are returned at once, and a
   blocking call waits for some. r is the ring of this connection.
   */
  method Recv(chip: Chip, s: nat, len: nat, nonblock: bool, listener: bool, polls: seq<Poll>)
      returns (data: seq<Byte>, end: End, used: nat, ghost r: RxRing)
    requires chip.Valid() && s < SOCKETS && RxIdle(chip.rx[s]) && !chip.rx[s].dgram
    modifies chip
    ensures |data| <= len && Delivered(r, old(chip.rx[s]), data)
    ensures (end == Complete <==> data != [] || len == 0) && end != TooLong && Reason(end, nonblock, polls, used, |data|)
    ensures polls != [] ==> |data| == len || |data| >= |old(chip.rx[s].stored)| - old(chip.rx[s].consumed)
    ensures end != Lost ==> && chip.RanButRx(old(chip.tx), old(chip.rx), s) && RxIdle(chip.rx[s]) && !chip.rx[s].dgram
                            && r == chip.rx[s]
    ensures end == Lost ==> chip.RanButSocket(old(chip.tx), old(chip.rx), s)
  {
    hide TxRing.Ok, RxRing.Ok, Delivered;
    data, used, r := [], 0, chip.rx[s];
    StartsDelivered(chip, s);
    if len == 0 {
      return [], Complete, 0, r;
    }
    while used < |polls|
      invariant chip.RanButRx(old(chip.tx), old(chip.rx), s) && RxIdle(chip.rx[s]) && !chip.rx[s].dgram
      invariant r == chip.rx[s] && Delivered(r, old(chip.rx[s]), [])
      invariant data == [] && used <= |polls|
      invariant used == 0 ==> chip.rx[s] == old(chip.rx[s])
      invariant used > 0 ==> !nonblock && |old(chip.rx[s].stored)| <= old(chip.rx[s].consumed)
      invariant Stops(polls[..used]) == 0
    {
      StopsNext(polls, used);
      data := ReadBuf(chip, s, len);
      DeliveredTwice(chip.rx[s], r, old(chip.rx[s]), [], data);
      assert [] + data == data;
      r := chip.rx[s];
      if data != [] {
        return data, Complete, used, r;
      } else if polls[used].linkDown {
        ghost var tx, rx := ManageDisconnect(chip, s, listener);
        DeliveredRan(rx, r, old(chip.rx[s]), []);
        return [], Lost, used, rx;
      } else if nonblock {
        return [], NonBlocking, used, r;
      } else if polls[used].timeoutEnded {
        return [], TimedOut, used, r;
      }
      used := used + 1;
    }
    assert polls[..used] == polls;
    end := Waiting;
  }

  /**
   Any sequence of receives on a connection, until it is lost: together they are the stored
   bytes from the first one on, with none lost, repeated or reordered; and they are all that
   was there, or as many as asked for.
   */
  method RecvAll(chip: Chip, s: nat, lens: seq<nat>, nonblock: bool, listener: bool, polls: seq<seq<Poll>>)
      returns (data: seq<Byte>, lost: bool, ghost r: RxRing)
    requires chip.Valid() && s < SOCKETS && RxIdle(chip.rx[s]) && !chip.rx[s].dgram && |polls| == |lens|
    modifies chip
    ensures chip.RanButSocket(old(chip.tx), old(chip.rx), s)
    ensures Delivered(r, old(chip.rx[s]), data) && (!lost ==> r == chip.rx[s])
    ensures (forall i | 0 <= i < |polls| :: polls[i] != []) ==>
              |data| >= |old(chip.rx[s].stored)| - old(chip.rx[s].consumed) || (!lost && |data| == Sum(lens))
  {
    hide TxRing.Ok, RxRing.Ok, Delivered;
    data, lost, r := [], false, chip.rx[s];
    StartsDelivered(chip, s);
    for i := 0 to |lens|
      invariant chip.RanButRx(old(chip.tx), old(chip.rx), s) && RxIdle(chip.rx[s]) && !chip.rx[s].dgram
      invariant !lost && r == chip.rx[s] && Delivered(r, old(chip.rx[s]), data)
      invariant (forall j | 0 <= j < |polls| :: polls[j] != []) ==>
                  |data| >= |old(chip.rx[s].stored)| - old(chip.rx[s].consumed) || |data| == Sum(lens[..i])
    {
      ghost var r1 := r;
      UnreadLeft(r, old(chip.rx[s]), data);
      var more, end, used;
      more, end, used, r := Recv(chip, s, lens[i], nonblock, listener, polls[i]);
      DeliveredTwice(r, r1, old(chip.rx[s]), data, more);
      assert lens[..i + 1][..i] == lens[..i];
      data := data + more;
      if end == Lost {
        lost := true;
        return;
      }
    }
    assert lens[..|lens|] == lens;
  }

  function Sum(lens: seq<nat>): nat {
    if lens == [] then 0 else Sum(lens[..|lens| - 1]) + lens[|lens| - 1]
  }

  lemma UnreadLeft(r: RxRing, r0: RxRing, data: seq<Byte>)
    requires Delivered(r, r0, data)
    ensures |r.stored| - r.consumed >= |r0.stored| - r0.consumed - |data|
  {
  }

  lemma DeliveredTwice(r2: RxRing, r1: RxRing, r0: RxRing, d1: seq<Byte>, d2: seq<Byte>)
    requires Delivered(r1, r0, d1) && Delivered(r2, r1, d2)
    ensures Delivered(r2, r0, d1 + d2)
  {
  }

  /** What a datagram socket finds at its read pointer. */
  lemma FirstFrame(r: RxRing, mem: seq<Byte>, base: nat)
    requires base + 0x800 <= |mem| && r.Ok(mem, base) && r.dgram && r.Unread() != []
    ensures r.frames != [] && r.frames[0].Ok()
    ensures var f := r.frames[0];
            && |r.Unread()| >= 8 + |f.payload|
            && r.Unread()[..4] == f.address && r.Unread()[4..6] == f.port
            && Get16(r.Unread()[6], r.Unread()[7]) == |f.payload|
            && r.Unread()[8..8 + |f.payload|] == f.payload
            && r.Unread()[..8 + |f.payload|] == f.Bytes()
  {
    var f := r.frames[0];
    assert r.Unread() == f.Bytes() + Flatten(r.frames[1..]);
    assert r.Unread()[..8] == f.Bytes()[..8];
    assert r.Unread()[8..8 + |f.payload|] == f.Bytes()[8..];
  }

  datatype Datagram =
    | Nothing
    | Datagram(address: seq<Byte>, port: seq<Byte>, payload: seq<Byte>)
    | Overrun(length: nat)  // the datagram is longer than the caller's buffer

  lemma FrameAtStart(r: RxRing, mem: seq<Byte>, base: nat)
    requires base + 0x800 <= |mem| && r.Ok(mem, base) && r.dgram
    ensures r.frames == [] <==> |r.Unread()| < 8
  {
  }

  lemma InStream(chip: Chip, s: nat)
    requires chip.Valid() && s < SOCKETS
    ensures var r := chip.rx[s]; r.consumed + r.claimed <= |r.stored| && r.rd == Ptr(r.origin + r.consumed + r.claimed)
  {
  }

  lemma FrameReleased(r2: RxRing, r1: RxRing, r0: RxRing, p: nat)
    requires RxRan(r1, r0) && RxIdle(r0) && r0.consumed <= |r0.stored|
    requires r0.dgram && r0.frames != [] && r0.frames[0].Ok()
    requires |r0.frames[0].Bytes()| <= |r0.Unread()| && r0.Unread()[..|r0.frames[0].Bytes()|] == r0.frames[0].Bytes()
    requires RxRan(r2, Release(r1.(rd := p, claimed := |r0.frames[0].Bytes()|)))
    ensures RxIdle(r2) && r2.dgram && r0.frames[1..] <= r2.frames
    ensures Delivered(r2, r0, r0.frames[0].Bytes())
  {
  }

  /** Header and payload of the first datagram, which is then given back. */
  method ReadFrame(chip: Chip, s: nat, len: nat) returns (d: Datagram)
    requires chip.Valid() && s < SOCKETS && RxIdle(chip.rx[s]) && chip.rx[s].dgram && chip.rx[s].frames != []
    modifies chip
    ensures chip.RanButRx(old(chip.tx), old(chip.rx), s) && RxIdle(chip.rx[s])
    ensures var f, n := old(chip.rx[s].frames[0]), |old(chip.rx[s].frames[0].payload)|;
            if n > len then d == Overrun(n) && RxRan(chip.rx[s], old(chip.rx[s]))
            else && d == Datagram(f.address, f.port, f.payload)
                 && old(chip.rx[s].frames)[1..] <= chip.rx[s].frames && chip.rx[s].dgram
                 && Delivered(chip.rx[s], old(chip.rx[s]), f.Bytes())
  {
    hide TxRing.Ok, RxRing.Ok, Holds, Frame.Bytes, Delivered, Release, Flatten, Get16;
    ghost var r := chip.rx[s];
    InStream(chip, s);
    FrameAtStart(r, chip.mem, RxBase(s));
    FirstFrame(r, chip.mem, RxBase(s));
    var header, pread := ReadBufSure(chip, s, 8, chip.rx[s].rd, r.consumed);
    assert header == r.Unread()[..8];
    var msgLen := Get16(header[6], header[7]);
    if msgLen > len {
      return Overrun(msgLen);
    }
    var payload, pstop := ReadBufSure(chip, s, msgLen, pread, r.consumed + 8);
    assert payload == r.Unread()[8..8 + msgLen];
    assert header[..4] == r.Unread()[..4] && header[4..6] == r.Unread()[4..6];
    ghost var r1 := chip.rx[s];
    ReadBufRecv(chip, s, pstop, 8 + msgLen);
    FrameReleased(chip.rx[s], r1, r, pstop);
    d := Datagram(header[..4], header[4..6], payload);
  }

  /**
   One turn of the loop of recvfrom on a datagram socket, for a buffer of len bytes.
   The code copies the whole datagram whatever len is: where that would run past the
   buffer, the model stops with Overrun.
   */
  method ReceiveFrame(chip: Chip, s: nat, len: nat) returns (d: Datagram)
    requires chip.Valid() && s < SOCKETS && RxIdle(chip.rx[s]) && chip.rx[s].dgram
    modifies chip
    ensures chip.RanButRx(old(chip.tx), old(chip.rx), s) && RxIdle(chip.rx[s]) && chip.rx[s].dgram
    ensures Received(d, len, chip.rx[s], old(chip.rx[s]))
    ensures d == Nothing ==> old(chip.rx[s].frames) == []
  {
    var toread := ReadBufLen(chip, s);
    d := Nothing;
    FrameAtStart(chip.rx[s], chip.mem, RxBase(s));
    if toread >= 8 {
      ghost var r1 := chip.rx[s];
      d := ReadFrame(chip, s, len);
      assert r1.frames == [r1.frames[0]] + r1.frames[1..];
    }
  }

  /** The datagram was the first one stored, and has been given back; or nothing has changed,
      except for what the chip stores. */
  ghost predicate Received(d: Datagram, len: nat, r: RxRing, r0: RxRing) {
    match d
    case Nothing => RxRan(r, r0)
    case Overrun(n) => RxRan(r, r0) && r.frames != [] && |r.frames[0].payload| == n > len
    case Datagram(address, port, payload) =>
      && |port| == 2 && |address| == 4 && |payload| <= len && 8 + |payload| <= 0x800
      && r0.frames <= [Frame(address, port, payload)] + r.frames
      && Delivered(r, r0, Frame(address, port, payload).Bytes())
  }

  /** The loop of recvfrom on a datagram socket: a datagram that is there is returned at once,
      and a blocking call waits for one. */
  method RecvFrom(chip: Chip, s: nat, len: nat, nonblock: bool, polls: seq<Poll>) returns (d: Datagram, end: End, used: nat)
    requires chip.Valid() && s < SOCKETS && RxIdle(chip.rx[s]) && chip.rx[s].dgram
    modifies chip
    ensures chip.RanButRx(old(chip.tx), old(chip.rx), s) && RxIdle(chip.rx[s]) && chip.rx[s].dgram
    ensures Received(d, len, chip.rx[s], old(chip.rx[s]))
    ensures (end == Complete <==> d != Nothing || len == 0) && end != TooLong && end != Lost && DatagramReason(end, nonblock, polls, used)
    ensures d == Nothing && len > 0 && polls != [] ==> old(chip.rx[s].frames) == []
  {
    hide TxRing.Ok, RxRing.Ok, Delivered;
    d, used := Nothing, 0;
    if len == 0 {
      return Nothing, Complete, 0;
    }
    while used < |polls|
      invariant chip.RanButRx(old(chip.tx), old(chip.rx), s) && chip.rx[s].dgram
      invariant d == Nothing && RxRan(chip.rx[s], old(chip.rx[s])) && RxIdle(chip.rx[s])
      invariant used <= |polls| && (used > 0 ==> !nonblock && old(chip.rx[s].frames) == [])
      invariant forall i | 0 <= i < used :: !polls[i].timeoutEnded
    {
      ghost var r := chip.rx[s];
      d := ReceiveFrame(chip, s, len);
      ReceivedLater(d, len, chip.rx[s], r, old(chip.rx[s]));
      if d != Nothing {
        return d, Complete, used;
      } else if nonblock {
        return Nothing, NonBlocking, used;
      } else if polls[used].timeoutEnded {
        return Nothing, TimedOut, used;
      }
      used := used + 1;
    }
    end := Waiting;
  }

  lemma ReceivedLater(d: Datagram, len: nat, r2: RxRing, r1: RxRing, r0: RxRing)
    requires RxRan(r1, r0) && Received(d, len, r2, r1)
    ensures Received(d, len, r2, r0)
  {
  }

  /**
   Any sequence of receives on a datagram socket, up to an overrun: what they return are
   exactly the stored datagrams, whole and in order. With buffers that fit every datagram,
   each call returns one as long as there are any.
   */
  method RecvFromAll(chip: Chip, s: nat, lens: seq<nat>, nonblock: bool, polls: seq<seq<Poll>>)
      returns (got: seq<Frame>, overrun: bool)
    requires chip.Valid() && s < SOCKETS && RxIdle(chip.rx[s]) && chip.rx[s].dgram && |polls| == |lens|
    modifies chip
    ensures chip.RanButRx(old(chip.tx), old(chip.rx), s) && RxIdle(chip.rx[s]) && chip.rx[s].dgram
    ensures FramesOk(got) && Delivered(chip.rx[s], old(chip.rx[s]), Flatten(got))
    ensures old(chip.rx[s].frames) <= got + chip.rx[s].frames
    ensures (forall i | 0 <= i < |lens| :: lens[i] >= 0x7F8 && polls[i] != []) ==>
              !overrun && (|got| >= |lens| || |got| >= |old(chip.rx[s].frames)|)
  {
    hide TxRing.Ok, RxRing.Ok, Delivered, Flatten;
    got, overrun := [], false;
    StartsDelivered(chip, s);
    FlattenNone();
    for i := 0 to |lens|
      invariant chip.RanButRx(old(chip.tx), old(chip.rx), s) && RxIdle(chip.rx[s]) && chip.rx[s].dgram
      invariant !overrun && FramesOk(got) && Delivered(chip.rx[s], old(chip.rx[s]), Flatten(got))
      invariant old(chip.rx[s].frames) <= got + chip.rx[s].frames
      invariant (forall i | 0 <= i < |lens| :: lens[i] >= 0x7F8 && polls[i] != []) ==>
                  |got| >= i || |got| >= |old(chip.rx[s].frames)|
    {
      ghost var r := chip.rx[s];
      var d, end, used := RecvFrom(chip, s, lens[i], nonblock, polls[i]);
      match d {
        case Nothing =>
          DeliveredRan(chip.rx[s], r, old(chip.rx[s]), Flatten(got));
        case Overrun(n) =>
          DeliveredRan(chip.rx[s], r, old(chip.rx[s]), Flatten(got));
          FrameFits(chip, s);
          return got, true;
        case Datagram(address, port, payload) =>
          var f := Frame(address, port, payload);
          DeliveredTwice(chip.rx[s], r, old(chip.rx[s]), Flatten(got), f.Bytes());
          FlattenSnoc(got, f);
          got := got + [f];
      }
    }
  }

  lemma FlattenNone()
    ensures Flatten([]) == []
  {
  }

  lemma FrameFits(chip: Chip, s: nat)
    requires chip.Valid() && s < SOCKETS && chip.rx[s].dgram && chip.rx[s].frames != []
    ensures |chip.rx[s].frames[0].payload| <= 0x7F8
  {
  }
}
