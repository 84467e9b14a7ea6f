/**
 The W5100 as the driver sees it: memory, and for each socket a transmit and a
 receive ring. The chip runs concurrently: Chip.Run is any amount of its work,
 and the driver (W5100Driver) calls it between any two of its own accesses.
 */
module W5100Chip {
  import opened Bytes
  import opened RingMemory

  /**
   A transmit ring. rd and wr are Sn_TX_RD and Sn_TX_WR; limit is wr as latched
   by the last SEND command. origin, accepted and staged are its history: where
   the stream started, the bytes handed over by SEND, and those written to the
   window but not yet handed over. wire is what the chip has taken.
   */
  datatype TxRing = TxRing(rd: nat, wr: nat, limit: nat,
                           origin: nat, accepted: seq<Byte>, staged: seq<Byte>, wire: seq<Byte>)
  {
    ghost predicate Ok(mem: seq<Byte>, base: nat)
      requires base + 0x800 <= |mem|
    {
      && wire <= accepted
      && |accepted| + |staged| - |wire| <= 0x800
      && rd == Ptr(origin + |wire|)
      && limit == Ptr(origin + |accepted|)
      && (wr == Ptr(origin + |accepted|) || wr == Ptr(origin + |accepted| + |staged|))
      && Holds(mem, base, origin + |wire|, (accepted + staged)[|wire|..])
    }

    /** The room behind the bytes the chip has not taken. */
    ghost function Room(): int {
      0x800 - (|accepted| - |wire|)
    }

    /** Sn_TX_FSR. */
    function Free(): int {
      0x800 - (limit - rd) % 0x1_0000
    }
  }

  /** A UDP datagram with the header the chip puts before it. */
  datatype Frame = Frame(address: Quad, port: seq<Byte>, payload: seq<Byte>) {
    predicate Ok() {
      |port| == 2 && 8 + |payload| <= 0x800
    }

    function Bytes(): (r: seq<Byte>)
      requires Ok()
      ensures |r| == 8 + |payload|
    {
      address + port + Put16(|payload|) + payload
    }
  }

  predicate FramesOk(frames: seq<Frame>) {
    forall i | 0 <= i < |frames| :: frames[i].Ok()
  }

  function Flatten(frames: seq<Frame>): seq<Byte>
    requires FramesOk(frames)
  {
    if frames == [] then [] else frames[0].Bytes() + Flatten(frames[1..])
  }

  /**
   A receive ring. wr is the chip's own pointer, rd is Sn_RX_RD and ack is rd as
   latched by the last RECV command. History: all bytes stored so far, how many
   of them RECV has given back, how far rd is ahead of that, and for a datagram
   socket the frames stored but not given back.
   */
  datatype RxRing = RxRing(wr: nat, rd: nat, ack: nat,
                           origin: nat, stored: seq<Byte>, consumed: nat, claimed: nat,
                           dgram: bool, frames: seq<Frame>)
  {
    ghost predicate Ok(mem: seq<Byte>, base: nat)
      requires base + 0x800 <= |mem|
    {
      && consumed + claimed <= |stored|
      && |stored| - consumed <= 0x800
      && wr == Ptr(origin + |stored|)
      && ack == Ptr(origin + consumed)
      && rd == Ptr(origin + consumed + claimed)
      && Holds(mem, base, origin + consumed, stored[consumed..])
      && (dgram ==> FramesOk(frames) && stored[consumed..] == Flatten(frames))
    }

    /** Sn_RX_RSR. */
    function Received(): int {
      (wr - ack) % 0x1_0000
    }

    ghost function Unread(): seq<Byte>
      requires consumed <= |stored|
    {
      stored[consumed..]
    }
  }

  /** The rings of a socket that has just been opened, from wherever their pointers start. */
  function EmptyTx(origin: nat): TxRing {
    TxRing(Ptr(origin), Ptr(origin), Ptr(origin), origin, [], [], [])
  }

  function EmptyRx(origin: nat, dgram: bool): RxRing {
    RxRing(Ptr(origin), Ptr(origin), Ptr(origin), origin, [], 0, 0, dgram, [])
  }

  /** What the chip may do to a transmit ring on its own: take accepted bytes. */
  ghost predicate TxRan(r: TxRing, r0: TxRing) {
    r == r0.(rd := r.rd, wire := r.wire) && |r0.wire| <= |r.wire|
  }

  /** What the chip may do to a receive ring on its own: store new bytes. */
  ghost predicate RxRan(r: RxRing, r0: RxRing) {
    && r == r0.(wr := r.wr, stored := r.stored, frames := r.frames)
    && r0.stored <= r.stored && r0.frames <= r.frames
  }

  /** Outside receive memory, at most the given transmit window has changed. */
  ghost predicate OnlyWindow(mem: seq<Byte>, mem0: seq<Byte>, s: nat) {
    && |mem| == |mem0| == MEM_SIZE
    && forall a | 0 <= a < 0x6000 && !(TxBase(s) <= a < TxBase(s) + 0x800) :: mem[a] == mem0[a]
  }

  /** The invariant of the whole chip: every ring holds its own stream. */
  ghost predicate RingsOk(mem: seq<Byte>, tx: seq<TxRing>, rx: seq<RxRing>) {
    && |mem| == MEM_SIZE && |tx| == |rx| == SOCKETS
    && (forall s | 0 <= s < SOCKETS :: tx[s].Ok(mem, TxBase(s)))
    && (forall s | 0 <= s < SOCKETS :: rx[s].Ok(mem, RxBase(s)))
  }

  // ---- what the registers say ----

  /** Sn_TX_FSR is the room, although it is computed from wrapped pointers. */
  lemma FreeIsRoom(r: TxRing, mem: seq<Byte>, base: nat)
    requires base + 0x800 <= |mem| && r.Ok(mem, base)
    ensures r.Free() == r.Room()
  {
    PtrDistance(r.origin + |r.wire|, |r.accepted| - |r.wire|);
  }

  /** Sn_RX_RSR counts the unread bytes. */
  lemma ReceivedIsUnread(r: RxRing, mem: seq<Byte>, base: nat)
    requires base + 0x800 <= |mem| && r.Ok(mem, base)
    ensures r.Received() == |r.Unread()|
  {
    PtrDistance(r.origin + r.consumed, |r.stored| - r.consumed);
  }

  // ---- steps of the driver and of the chip on one ring ----

  /** The driver writes one byte behind the staged ones. */
  function Stage(r: TxRing, b: Byte): TxRing {
    r.(staged := r.staged + [b])
  }

  /** The SEND command. */
  function Commit(r: TxRing): TxRing {
    r.(limit := r.wr, accepted := r.accepted + r.staged, staged := [])
  }

  /** The chip takes one byte from the window, at its own read pointer. */
  function Take(r: TxRing, b: Byte): TxRing {
    r.(rd := (r.rd + 1) % 0x1_0000, wire := r.wire + [b])
  }

  lemma StageKeeps(r: TxRing, mem: seq<Byte>, base: nat, b: Byte)
    requires base + 0x800 <= |mem| && r.Ok(mem, base)
    requires r.wr == Ptr(r.origin + |r.accepted|)
    requires |r.accepted| + |r.staged| - |r.wire| < 0x800
    ensures Stage(r, b).Ok(mem[Cell(base, r.origin + |r.accepted| + |r.staged|) := b], base)
  {
    var data := (r.accepted + r.staged)[|r.wire|..];
    HoldsSnoc(mem, base, r.origin + |r.wire|, data, b);
    assert r.origin + |r.wire| + |data| == r.origin + |r.accepted| + |r.staged|;
    assert (r.accepted + (r.staged + [b]))[|r.wire|..] == data + [b];
  }

  lemma CommitKeeps(r: TxRing, mem: seq<Byte>, base: nat)
    requires base + 0x800 <= |mem| && r.Ok(mem, base)
    requires r.wr == Ptr(r.origin + |r.accepted| + |r.staged|)
    ensures Commit(r).Ok(mem, base)
  {
    assert Commit(r).accepted + Commit(r).staged == r.accepted + r.staged;
  }

  /** The byte the chip reads is the oldest one it has not taken. */
  lemma TakeKeeps(r: TxRing, mem: seq<Byte>, base: nat)
    requires base + 0x800 <= |mem| && r.Ok(mem, base)
    requires |r.wire| < |r.accepted|
    ensures Take(r, mem[base + r.rd % 0x800]).Ok(mem, base)
  {
    MaskOfPtr(r.origin + |r.wire|);
    PtrAdvance(r.origin + |r.wire|, 1);
    var all := r.accepted + r.staged;
    assert mem[Cell(base, r.origin + |r.wire| + 0)] == all[|r.wire|..][0] == r.accepted[|r.wire|];
    HoldsDrop(mem, base, r.origin + |r.wire|, all[|r.wire|..], 1);
    assert all[|r.wire|..][1..] == all[|r.wire| + 1..];
  }

  /** The chip stores one byte at its own write pointer. */
  function Store(r: RxRing, b: Byte): RxRing {
    r.(wr := (r.wr + 1) % 0x1_0000, stored := r.stored + [b])
  }

  lemma StoreKeeps(r: RxRing, mem: seq<Byte>, base: nat, b: Byte)
    requires base + 0x800 <= |mem| && r.Ok(mem, base) && !r.dgram
    requires |r.stored| - r.consumed < 0x800
    ensures Store(r, b).Ok(mem[base + r.wr % 0x800 := b], base)
  {
    MaskOfPtr(r.origin + |r.stored|);
    PtrAdvance(r.origin + |r.stored|, 1);
    HoldsSnoc(mem, base, r.origin + r.consumed, r.stored[r.consumed..], b);
    assert r.origin + r.consumed + |r.stored[r.consumed..]| == r.origin + |r.stored|;
    assert (r.stored + [b])[r.consumed..] == r.stored[r.consumed..] + [b];
  }

  lemma FlattenTail(frames: seq<Frame>)
    requires FramesOk(frames) && frames != []
    ensures FramesOk(frames[1..])
    ensures Flatten(frames)[|frames[0].Bytes()|..] == Flatten(frames[1..])
  {
  }

  /** The RECV command. A datagram socket gives back its first frame. */
  function Release(r: RxRing): RxRing {
    r.(ack := r.rd, consumed := r.consumed + r.claimed, claimed := 0,
       frames := if r.dgram && r.frames != [] then r.frames[1..] else r.frames)
  }

  lemma ReleaseKeeps(r: RxRing, mem: seq<Byte>, base: nat)
    requires base + 0x800 <= |mem| && r.Ok(mem, base)
    requires r.dgram ==> r.frames != [] && r.claimed == |r.frames[0].Bytes()|
    ensures Release(r).Ok(mem, base)
  {
    HoldsDrop(mem, base, r.origin + r.consumed, r.Unread(), r.claimed);
    assert r.Unread()[r.claimed..] == r.stored[r.consumed + r.claimed..];
    if r.dgram {
      FlattenTail(r.frames);
    }
  }

  /** A write to one cell of a window disturbs no ring with another window. */
  lemma OthersKeep(mem: seq<Byte>, tx: seq<TxRing>, rx: seq<RxRing>, addr: nat, b: Byte)
    requires RingsOk(mem, tx, rx) && addr < |mem|
    ensures forall s | 0 <= s < SOCKETS && !(TxBase(s) <= addr < TxBase(s) + 0x800) ::
              tx[s].Ok(mem[addr := b], TxBase(s))
    ensures forall s | 0 <= s < SOCKETS && !(RxBase(s) <= addr < RxBase(s) + 0x800) ::
              rx[s].Ok(mem[addr := b], RxBase(s))
  {
    forall s | 0 <= s < SOCKETS && !(TxBase(s) <= addr < TxBase(s) + 0x800)
      ensures tx[s].Ok(mem[addr := b], TxBase(s))
    {
      var r := tx[s];
      HoldsElsewhere(mem, TxBase(s), r.origin + |r.wire|, (r.accepted + r.staged)[|r.wire|..], addr, b);
    }
    forall s | 0 <= s < SOCKETS && !(RxBase(s) <= addr < RxBase(s) + 0x800)
      ensures rx[s].Ok(mem[addr := b], RxBase(s))
    {
      var r := rx[s];
      HoldsElsewhere(mem, RxBase(s), r.origin + r.consumed, r.stored[r.consumed..], addr, b);
    }
  }

  lemma FlattenSnoc(frames: seq<Frame>, f: Frame)
    requires FramesOk(frames) && f.Ok()
    ensures FramesOk(frames + [f])
    ensures Flatten(frames + [f]) == Flatten(frames) + f.Bytes()
  {
    if frames == [] {
      assert frames + [f] == [f];
    } else {
      FlattenSnoc(frames[1..], f);
      assert (frames + [f])[1..] == frames[1..] + [f];
      assert frames[0].Bytes() + (Flatten(frames[1..]) + f.Bytes()) == Flatten(frames) + f.Bytes();
    }
  }

  /** Appending a whole frame keeps the unread bytes a sequence of whole frames. */
  lemma FrameKeeps(r0: RxRing, r: RxRing, f: Frame, mem: seq<Byte>, base: nat)
    requires base + 0x800 <= |mem| && r.Ok(mem, base) && f.Ok()
    requires r0.consumed == r.consumed <= |r0.stored| && r.stored == r0.stored + f.Bytes()
    requires FramesOk(r0.frames) && r0.Unread() == Flatten(r0.frames)
    ensures r.(dgram := true, frames := r0.frames + [f]).Ok(mem, base)
  {
    FlattenSnoc(r0.frames, f);
    assert r.stored[r.consumed..] == r0.stored[r.consumed..] + f.Bytes();
  }

  // ---- the chip ----

  class Chip {
    var mem: seq<Byte>
    var tx: seq<TxRing>
    var rx: seq<RxRing>

    ghost predicate Valid()
      reads this
    {
      RingsOk(mem, tx, rx)
    }

    /** The chip has run, and nothing else happened, since the rings were tx0 and rx0. */
    ghost predicate Ran(tx0: seq<TxRing>, rx0: seq<RxRing>)
      requires |tx0| == |rx0| == SOCKETS
      reads this
    {
      && Valid()
      && (forall s | 0 <= s < SOCKETS :: TxRan(tx[s], tx0[s]))
      && (forall s | 0 <= s < SOCKETS :: RxRan(rx[s], rx0[s]))
    }

    /** As Ran, except for what the driver did to the transmit ring of socket s. */
    ghost predicate RanButTx(tx0: seq<TxRing>, rx0: seq<RxRing>, s: nat)
      requires |tx0| == |rx0| == SOCKETS
      reads this
    {
      && Valid()
      && (forall t | 0 <= t < SOCKETS && t != s :: TxRan(tx[t], tx0[t]))
      && (forall t | 0 <= t < SOCKETS :: RxRan(rx[t], rx0[t]))
    }

    /** As Ran, except for what the driver did to the receive ring of socket s. */
    ghost predicate RanButRx(tx0: seq<TxRing>, rx0: seq<RxRing>, s: nat)
      requires |tx0| == |rx0| == SOCKETS
      reads this
    {
      && Valid()
      && (forall t | 0 <= t < SOCKETS :: TxRan(tx[t], tx0[t]))
      && (forall t | 0 <= t < SOCKETS && t != s :: RxRan(rx[t], rx0[t]))
    }

    /** As Ran, except for socket s. */
    ghost predicate RanButSocket(tx0: seq<TxRing>, rx0: seq<RxRing>, s: nat)
      requires |tx0| == |rx0| == SOCKETS
      reads this
    {
      && Valid()
      && (forall t | 0 <= t < SOCKETS && t != s :: TxRan(tx[t], tx0[t]))
      && (forall t | 0 <= t < SOCKETS && t != s :: RxRan(rx[t], rx0[t]))
    }

    /** The OPEN command empties both rings of a socket. */
    method CommandOpen(s: nat)
      requires Valid() && s < SOCKETS
      modifies `tx, `rx
      ensures Valid()
      ensures exists o :: tx == old(tx)[s := EmptyTx(o)]
      ensures exists o :: rx == old(rx)[s := EmptyRx(o, old(rx[s]).dgram)]
    {
      var o1: int, o2: int := *, *;
      if o1 < 0 { o1 := 0; }
      if o2 < 0 { o2 := 0; }
      tx := tx[s := EmptyTx(o1)];
      rx := rx[s := EmptyRx(o2, rx[s].dgram)];
    }

    /** The driver writes one byte into the transmit window, behind those staged there. */
    method WriteByte(s: nat, addr: nat, b: Byte)
      requires Valid() && s < SOCKETS
      requires var r := tx[s];
               && r.wr == Ptr(r.origin + |r.accepted|)
               && |r.accepted| + |r.staged| - |r.wire| < 0x800
               && addr == Cell(TxBase(s), r.origin + |r.accepted| + |r.staged|)
      modifies `mem, `tx
      ensures Valid() && tx == old(tx)[s := Stage(old(tx[s]), b)]
      ensures mem == old(mem)[addr := b]
    {
      StageKeeps(tx[s], mem, TxBase(s), b);
      OthersKeep(mem, tx, rx, addr, b);
      mem := mem[addr := b];
      tx := tx[s := Stage(tx[s], b)];
    }

    /** The driver writes Sn_TX_WR, past the staged bytes. */
    method WriteTxWr(s: nat, p: nat)
      requires Valid() && s < SOCKETS
      requires p == Ptr(tx[s].origin + |tx[s].accepted| + |tx[s].staged|)
      modifies `tx
      ensures Valid() && tx == old(tx)[s := old(tx[s]).(wr := p)]
    {
      tx := tx[s := tx[s].(wr := p)];
    }

    /** The SEND command hands the staged bytes over. */
    method CommandSend(s: nat)
      requires Valid() && s < SOCKETS
      requires tx[s].wr == Ptr(tx[s].origin + |tx[s].accepted| + |tx[s].staged|)
      modifies `tx
      ensures Valid() && tx == old(tx)[s := Commit(old(tx[s]))]
    {
      CommitKeeps(tx[s], mem, TxBase(s));
      tx := tx[s := Commit(tx[s])];
    }

    /** The driver writes Sn_RX_RD, n bytes on. */
    method WriteRxRd(s: nat, p: nat, n: nat)
      requires Valid() && s < SOCKETS && n <= |rx[s].Unread()|
      requires p == Ptr(rx[s].origin + rx[s].consumed + n)
      modifies `rx
      ensures Valid() && rx == old(rx)[s := old(rx[s]).(rd := p, claimed := n)]
    {
      rx := rx[s := rx[s].(rd := p, claimed := n)];
    }

    /** The RECV command gives the claimed bytes back to the chip. */
    method CommandRecv(s: nat)
      requires Valid() && s < SOCKETS
      requires rx[s].dgram ==> rx[s].frames != [] && rx[s].claimed == |rx[s].frames[0].Bytes()|
      modifies `rx
      ensures Valid() && rx == old(rx)[s := Release(old(rx[s]))]
    {
      ReleaseKeeps(rx[s], mem, RxBase(s));
      rx := rx[s := Release(rx[s])];
    }

    /** The chip transmits one accepted byte, if there is one. */
    method Transmit(s: nat)
      requires Valid() && s < SOCKETS
      modifies `tx
      ensures Ran(old(tx), old(rx))
    {
      PtrDistance(tx[s].origin + |tx[s].wire|, |tx[s].accepted| - |tx[s].wire|);
      if tx[s].rd != tx[s].limit {
        TakeKeeps(tx[s], mem, TxBase(s));
        tx := tx[s := Take(tx[s], mem[TxBase(s) + tx[s].rd % 0x800])];
      }
    }

    /** The chip stores one byte of a TCP stream, if there is room. */
    method StoreByte(s: nat, b: Byte)
      requires Valid() && s < SOCKETS && !rx[s].dgram
      modifies `mem, `rx
      ensures Valid() && mem[..0x6000] == old(mem[..0x6000])
      ensures rx == if |old(rx[s].Unread())| < 0x800 then old(rx)[s := Store(old(rx[s]), b)] else old(rx)
    {
      ReceivedIsUnread(rx[s], mem, RxBase(s));
      if rx[s].Received() < 0x800 {
        StoreKeeps(rx[s], mem, RxBase(s), b);
        OthersKeep(mem, tx, rx, RxBase(s) + rx[s].wr % 0x800, b);
        mem := mem[RxBase(s) + rx[s].wr % 0x800 := b];
        rx := rx[s := Store(rx[s], b)];
      }
    }

    /** The chip stores bytes of a TCP stream, as far as there is room. */
    method StoreBytes(s: nat, data: seq<Byte>)
      requires Valid() && s < SOCKETS && !rx[s].dgram
      modifies `mem, `rx
      ensures Valid() && mem[..0x6000] == old(mem[..0x6000])
      ensures rx == old(rx)[s := rx[s]] && RxRan(rx[s], old(rx[s])) && rx[s].frames == old(rx[s].frames)
      ensures |old(rx[s].stored)| - rx[s].consumed + |data| <= 0x800
        ==> rx[s].stored == old(rx[s].stored) + data
    {
      for i := 0 to |data|
        invariant Valid() && mem[..0x6000] == old(mem[..0x6000])
        invariant rx == old(rx)[s := rx[s]] && RxRan(rx[s], old(rx[s])) && rx[s].frames == old(rx[s].frames)
        invariant |old(rx[s].stored)| - rx[s].consumed + |data| <= 0x800
          ==> rx[s].stored == old(rx[s].stored) + data[..i]
      {
        StoreByte(s, data[i]);
      }
    }

    /** The chip stores a whole datagram with its header, or drops it. */
    method StoreFrame(s: nat, f: Frame)
      requires Valid() && s < SOCKETS && rx[s].dgram && f.Ok()
      modifies `mem, `rx
      ensures Valid() && mem[..0x6000] == old(mem[..0x6000])
      ensures rx == old(rx)[s := rx[s]] && RxRan(rx[s], old(rx[s]))
    {
      hide TxRing.Ok, Holds, Frame.Bytes, RxRing.Received;
      ReceivedIsUnread(rx[s], mem, RxBase(s));
      if rx[s].Received() + |f.Bytes()| <= 0x800 {
        ghost var r := rx[s];
        rx := rx[s := rx[s].(dgram := false)];
        StoreBytes(s, f.Bytes());
        FrameKeeps(r, rx[s], f, mem, RxBase(s));
        assert rx[s].frames == r.frames;
        rx := rx[s := rx[s].(dgram := true, frames := rx[s].frames + [f])];
      }
    }

    /** Any number of the chip's own steps, on any sockets, in any order. */
    method Run()
      requires Valid()
      modifies this
      ensures Ran(old(tx), old(rx)) && mem[..0x6000] == old(mem[..0x6000])
    {
      var steps: nat := *;
      while steps > 0
        invariant Ran(old(tx), old(rx)) && mem[..0x6000] == old(mem[..0x6000])
      {
        var s: int := *;
        var transmits: bool := *;
        var data: seq<Byte> := *;
        var f: Frame := *;
        if 0 <= s < |rx| {
          if transmits {
            Transmit(s);
          } else if !rx[s].dgram {
            StoreBytes(s, data);
          } else if f.Ok() {
            StoreFrame(s, f);
          }
        }
        steps := steps - 1;
      }
    }
  }
}
