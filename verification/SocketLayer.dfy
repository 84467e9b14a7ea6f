/**
 The socket calls as the code performs them: in place, on the two global tables.
 Each is proved to do what SocketTable says of it.
 */
module SocketLayer {
  import opened Wrappers
  import T = SocketTable
  import opened SocketTable

  lemma UpdatedTwice<X>(q: seq<X>, i: nat, x: X, y: X)
    requires i < |q|
    ensures q[i := x][i := y] == q[i := y]
  {
  }

  class Sockets {
    var files: seq<File>
    var slots: seq<Slot>

    function View(): Table
      reads this
    {
      Table(files, slots)
    }

    ghost predicate Valid()
      reads this
    {
      Inv(View())
    }

    /** The flag of the listening descriptor. */
    predicate Nonblocking(fd: nat)
      requires Valid()
      reads this
    {
      var g := GetSocket(View(), fd);
      g.Some? && slots[g.value].fdData.Some? && files[slots[g.value].fdData.value].nonblock
    }

    /** w5100_socket_init frees every slot; files starts zeroed. */
    constructor ()
      ensures Valid() && View() == INITIAL
    {
      files := seq(OPEN_MAX, _ => BLANK);
      var free: seq<Slot> := [];
      for i := 0 to SOCKETS
        invariant free == seq(i, _ => FREE_SLOT)
      {
        free := free + [FREE_SLOT];
      }
      slots := free;
      new;
      InitialInv();
    }

    /** file_alloc. */
    method FileAlloc() returns (ret: int)
      requires |files| == OPEN_MAX
      modifies `files
      ensures (files, ret) == T.FileAlloc(old(files))
    {
      var fd := 3;
      while fd < OPEN_MAX
        invariant 3 <= fd <= OPEN_MAX && files == old(files)
        invariant FirstUnallocated(files, 3) == FirstUnallocated(files, fd)
      {
        if !files[fd].inUse {
          files := files[fd := BLANK.(inUse := true, num := fd)];
          return fd;
        }
        fd := fd + 1;
      }
      ret := -1;
    }

    /** socket_alloc: the first free slot, or -1. It claims the slot by setting its fd. */
    method SocketAlloc() returns (ret: int)
      requires Valid()
      modifies `slots
      ensures ret == FirstFree(old(slots), 0)
      ensures slots == if ret == -1 then old(slots) else old(slots)[ret := old(slots)[ret].(fd := ret)]
    {
      var i := 0;
      while i < SOCKETS
        invariant 0 <= i <= SOCKETS && slots == old(slots)
        invariant FirstFree(slots, 0) == FirstFree(slots, i)
      {
        if slots[i].fd == FREE {
          slots := slots[i := slots[i].(fd := i)];
          return i;
        }
        i := i + 1;
      }
      ret := -1;
    }

    /** socket_free. */
    method SocketFree(s: nat)
      requires s < |slots|
      modifies `slots
      ensures slots == old(slots)[s := T.SocketFree(old(slots)[s])]
    {
      slots := slots[s := slots[s].(fd := FREE, fdData := None, connData := None, state := NONE)];
    }

    /** fill_fd_struct. */
    method FillFd(fd: nat, s: nat)
      requires fd < |files|
      modifies `files
      ensures files == T.FillFd(old(files), fd, s)
    {
      files := files[fd := files[fd].(isOpen := true, mode := Sock, nonblock := false, slot := Some(s))];
    }

    /** socket_create. */
    method Socket(stype: SockType) returns (fd: int)
      requires Valid()
      modifies this
      ensures (View(), fd) == T.Socket(old(View()), stype)
      ensures Valid()
    {
      var i := SocketAlloc();
      fd := -1;
      if i != -1 {
        fd := FileAlloc();
        if fd == -1 {
          SocketFree(i);
          assert slots == old(slots);
        } else {
          FillFd(fd, i);
          UpdatedTwice(old(slots), i, slots[i], Slot(fd, stype, CREATED, Some(fd), None));
          slots := slots[i := Slot(fd, stype, CREATED, Some(fd), None)];
        }
      }
    }

    /** bind. */
    method Bind(fd: nat, inet: bool) returns (ret: int)
      requires Valid()
      modifies `slots
      ensures (View(), ret) == T.Bind(old(View()), fd, inet)
      ensures Valid()
    {
      var g := GetSocket(View(), fd);
      if g == None || !inet {
        return -1;
      }
      var s := g.value;
      if slots[s].state != CREATED {
        return 1;
      } else if slots[s].stype == Raw {
        return -1;
      }
      slots := slots[s := slots[s].(state := BOUND)];
      return 0;
    }

    /** connect: connect_tcp or connect_udp. */
    method Connect(fd: nat, family: Family, established: bool) returns (ret: int)
      requires Valid()
      modifies `slots
      ensures (View(), ret) == T.Connect(old(View()), fd, family, established)
      ensures Valid()
    {
      var g := GetSocket(View(), fd);
      if g == None {
        return -1;
      }
      var s := g.value;
      if slots[s].stype == Stream {
        if family != AF_INET || slots[s].state != CREATED || !established {
          return -1;
        }
        slots := slots[s := slots[s].(state := CONNECTED)];
        return 0;
      } else if slots[s].stype == Dgram {
        if family == AF_OTHER {
          return -1;
        }
        if slots[s].state == CREATED {
          slots := slots[s := slots[s].(state := BOUND)];
        }
        return 0;
      }
      return -1;
    }

    /** listen. */
    method Listen(fd: nat) returns (ret: int)
      requires Valid()
      modifies `slots
      ensures (View(), ret) == T.Listen(old(View()), fd)
      ensures Valid()
    {
      var g := GetSocket(View(), fd);
      if g == None {
        return -1;
      }
      var s := g.value;
      if slots[s].state != BOUND {
        return 1;
      } else if slots[s].stype != Stream {
        return -1;
      }
      slots := slots[s := slots[s].(state := LISTENING)];
      return 0;
    }

    /**
     accept. polls is what the chip answers to each reading of its status, true for
     SOCK_ESTABLISHED. A blocking call waits for that, and blocked stands for one that still
     does; a non-blocking one goes by the first answer.
     */
    method Accept(fd: nat, polls: seq<bool>) returns (ret: int, blocked: bool)
      requires Valid()
      modifies this
      ensures blocked <==> IsSocket(old(View()), fd, Stream, LISTENING) && (if old(Nonblocking(fd)) then polls == [] else true !in polls)
      ensures var e := if old(Nonblocking(fd)) then polls != [] && polls[0] else true in polls;
              if blocked then View() == old(View()) else (View(), ret) == T.Accept(old(View()), fd, e)
      ensures Valid()
    {
      blocked := false;
      var g := GetSocket(View(), fd);
      if g == None {
        return -1, false;
      }
      var s := g.value;
      if slots[s].state != LISTENING {
        return 1, false;
      }
      var nonblock := files[slots[s].fdData.value].nonblock;
      for i := 0 to |polls|
        invariant View() == old(View()) && true !in polls[..i]
        invariant nonblock ==> i == 0
      {
        if polls[i] {
          ret := FileAlloc();
          if ret != -1 {
            FillFd(ret, s);
            slots := slots[s := slots[s].(state := ACCEPTED, connData := Some(ret))];
          }
          return ret, false;
        } else if nonblock {
          return -1, false;
        }
      }
      return -1, true;
    }

    /** w5100_sock_close. */
    method Close(fd: nat) returns (ret: int)
      requires Valid()
      modifies this
      ensures (View(), ret) == T.Close(old(View()), fd)
      ensures Valid()
    {
      var g := GetSocket(View(), fd);
      if g == None {
        return -1;
      }
      var s := g.value;
      if slots[s].fdData.Some? && files[slots[s].fdData.value].num == fd {
        files := files[fd := files[fd].(isOpen := false, inUse := false)];
        slots := slots[s := slots[s].(fdData := None)];
        if slots[s].state != ACCEPTED {
          UpdatedTwice(old(slots), s, slots[s], T.SocketFree(slots[s]));
          SocketFree(s);
        }
        return 0;
      } else if slots[s].connData == None {
        return -1;
      } else if files[slots[s].connData.value].num == fd {
        files := files[fd := files[fd].(isOpen := false, inUse := false)];
        slots := slots[s := slots[s].(connData := None)];
        if slots[s].fdData == None {
          UpdatedTwice(old(slots), s, slots[s], T.SocketFree(slots[s]));
          SocketFree(s);
        } else {
          UpdatedTwice(old(slots), s, slots[s], slots[s].(state := LISTENING));
          slots := slots[s := slots[s].(state := LISTENING)];
        }
        return 0;
      }
      return -1;
    }

    /** manage_disconnect, for the status it reads first. */
    method ManageDisconnect(s: nat, established: bool) returns (ret: int)
      requires Valid() && s < SOCKETS && slots[s].state in {ACCEPTED, CONNECTED}
      modifies `slots
      ensures ret == if established then 0 else -1
      ensures View() == if established then old(View()) else T.Disconnect(old(View()), s)
      ensures Valid()
    {
      if established {
        return 0;
      }
      if slots[s].state == ACCEPTED && slots[s].fdData != None {
        slots := slots[s := slots[s].(state := LISTENING)];
      } else {
        slots := slots[s := slots[s].(state := DISCONNECTED)];
      }
      return -1;
    }

    /** check_bind_udp. */
    method CheckBindUdp(s: nat)
      requires Valid() && s < SOCKETS && slots[s].stype == Dgram
      modifies `slots
      ensures View() == T.CheckBindUdp(old(View()), s)
      ensures Valid()
    {
      if slots[s].state == CREATED {
        slots := slots[s := slots[s].(state := BOUND)];
      }
    }

    /** send and sendto, up to the transfer, with the status that manage_disconnect reads. */
    method Send(fd: nat, linkDown: bool, dest: Destination) returns (outcome: Outcome)
      requires Valid()
      modifies `slots
      ensures (View(), outcome) == T.Send(old(View()), fd, linkDown, dest)
      ensures Valid()
    {
      var g := GetSocket(View(), fd);
      if g == None {
        return Fails;
      }
      var s := g.value;
      if slots[s].stype == Stream {
        if slots[s].state != ACCEPTED && slots[s].state != CONNECTED {
          return Fails;
        } else if slots[s].fdData == None {
          return NullPointer;
        } else if linkDown {
          var _ := ManageDisconnect(s, false);
        }
        return Runs;
      } else if slots[s].stype == Dgram {
        if dest == Nowhere {
          return Fails;
        }
        CheckBindUdp(s);
        return if dest == Refused then Fails else if slots[s].fdData == None then NullPointer else Runs;
      }
      return Fails;
    }

    /** recvfrom, likewise. */
    method Receive(fd: nat, linkDown: bool) returns (outcome: Outcome)
      requires Valid()
      modifies `slots
      ensures (View(), outcome) == T.Receive(old(View()), fd, linkDown)
      ensures Valid()
    {
      var g := GetSocket(View(), fd);
      if g == None {
        return Fails;
      }
      var s := g.value;
      if slots[s].stype == Stream && slots[s].state != ACCEPTED && slots[s].state != CONNECTED {
        return Fails;
      } else if slots[s].stype == Dgram && slots[s].state != BOUND && slots[s].state != CREATED {
        return Fails;
      } else if slots[s].fdData == None {
        return NullPointer;
      } else if slots[s].stype == Stream && linkDown {
        var _ := ManageDisconnect(s, false);
      }
      return Runs;
    }
  }
}
