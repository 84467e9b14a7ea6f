/**
 The DHCP client (src/dhcp_client.c:363-788): it updates its binding in place, field by field.
 Every method is the function on values of the same purpose in DhcpStates.
 */
module DhcpClient {
  import opened Bytes
  import opened Timespecs
  import opened DhcpOptions
  import opened DhcpMessage
  import S = DhcpStates
  import DhcpSafety

  class Client {
    var state: S.State
    const mac: Mac
    var client: Quad
    var server: Quad
    var gateway: Quad
    var subnet: Quad
    var dns: Quad
    var xid: Quad
    var t1: Timespec
    var t2: Timespec
    ghost var heard: seq<S.Heard>

    function Lease(): S.Lease
      reads this
    {
      S.Lease(client, server, gateway, subnet, dns, t1, t2)
    }

    function Binding(): S.Binding
      reads this
    {
      S.Binding(state, mac, xid, Lease())
    }

    ghost function Value(): S.Trace
      reads this
    {
      S.Trace(Binding(), heard)
    }

    /** dhcp_init. */
    constructor (mac: Mac)
      ensures Value() == S.Initial(mac)
    {
      this.mac := mac;
      state := S.INIT;
      client, server, gateway, subnet, dns, xid := ZERO_QUAD, ZERO_QUAD, ZERO_QUAD, ZERO_QUAD, ZERO_QUAD, ZERO_QUAD;
      t1, t2 := ZERO, ZERO;
      heard := [];
    }

    /** dhcp_update_state. */
    method UpdateState(mtype: Byte)
      modifies this`state
      ensures state == S.UpdateState(old(state), mtype)
    {
      var newState := state;
      match state {
        case INIT =>
          if mtype == DHCPDISCOVER { newState := S.SELECTING; }
        case SELECTING =>
          if mtype == DHCPREQUEST { newState := S.REQUESTING; }
        case REQUESTING | REBINDING | RENEWING | REBOOTING =>
          if mtype == DHCPACK { newState := S.BOUND; } else if mtype == DHCPNAK { newState := S.INIT; }
        case BOUND =>
          if mtype == DHCPREQUEST { newState := S.RENEWING; }
        case INIT_REBOOT =>
          if mtype == DHCPREQUEST { newState := S.REBOOTING; }
      }
      if newState != state {
        state := newState;
      }
    }

    /** send_bootp_request: the message in buf, and the outcome of sending it. */
    method SendRequest(buf: array<Byte>, random: Quad, sendOk: bool) returns (ret: int)
      requires buf.Length == MESSAGE_LEN
      modifies this`state, this`xid, buf
      ensures buf[..] == S.RequestOf(S.Tagged(old(Binding()), random))
      ensures Binding() == S.Send(old(Binding()), random, sendOk)
      ensures ret == if sendOk then 0 else S.DHCP_ESYSCALL
    {
      hide Request, RequestOptions;
      if state != S.SELECTING {
        xid := random;
      }
      var ciaddr := ZERO_QUAD;
      if state == S.BOUND || state == S.RENEWING || state == S.REBINDING {
        ciaddr := client;
      }
      var mtype := if state == S.INIT then DHCPDISCOVER else DHCPREQUEST;
      BuildRequest(buf, xid, ciaddr, mac, mtype, state == S.SELECTING, server, client);
      if !sendOk {
        return S.DHCP_ESYSCALL;
      }
      UpdateState(mtype);
      return 0;
    }

    /** recv_bootp_reply: the datagrams of the inbox arrive, then the receive fails. */
    method RecvReply(inbox: seq<S.Datagram>) returns (ret: int)
      modifies this
      ensures (Value(), ret) == S.Recv(old(Value()), inbox)
    {
      hide CheckReply, Parse, OrInfinite, S.Recv;
      var i := 0;
      while i < |inbox|
        invariant i <= |inbox|
        invariant Binding() == old(Binding())
        invariant S.Recv(Value(), inbox[i..]) == S.Recv(old(Value()), inbox)
      {
        var d := inbox[i];
        RecvNext(Value(), inbox[i..]);
        assert inbox[i..][1..] == inbox[i + 1..];
        i := i + 1;
        heard := heard + [S.Heard(state, xid, d)];
        if d.size == 0 || CheckReply(d.mem, mac, xid) <= OFFSET_OPTIONS {
          continue;
        }
        var o := ParseOptions(d.mem, 240, d.size, d.now);
        if o.lenError {
          continue;
        }
        ret := Reply(d, o);
        return;
      }
      RecvNext(Value(), inbox[i..]);
      return S.DHCP_ESYSCALL;
    }

    lemma RecvNext(t: S.Trace, inbox: seq<S.Datagram>)
      ensures inbox == [] ==> S.Recv(t, inbox) == (t, S.DHCP_ESYSCALL)
      ensures inbox != [] ==>
              S.Recv(t, inbox) ==
              if S.Skipped(t.b, inbox[0]) then S.Recv(S.Hear(t, inbox[0]), inbox[1..])
              else (S.Hear(t, inbox[0]).(b := S.Take(t.b, inbox[0]).0), S.Take(t.b, inbox[0]).1)
    {
    }

    /** A reply for the client, once its options have been parsed. */
    method Reply(d: S.Datagram, o: Options) returns (ret: int)
      requires o == S.OptionsOf(d)
      modifies this
      ensures heard == old(heard) && (Binding(), ret) == S.Take(old(Binding()), d)
    {
      hide Parse, OrInfinite, S.UpdateState, S.AwaitsAck, S.CheckOptions, S.OptionsOf, S.Offered;
      Awaited(state);
      var yiaddr := S.Offered(d);
      if o.mtype == DHCPOFFER && state == S.SELECTING {
        var t1', t2';
        ret, t1', t2' := CheckOptions(o);
        if ret == 0 {
          client, server := yiaddr, o.server;
        }
      } else if S.AwaitsAck(state) {
        if o.mtype == DHCPACK {
          var t1', t2';
          ret, t1', t2' := CheckOptions(o);
          client, server, gateway, subnet, dns := yiaddr, o.server, o.gateway, o.subnet, o.dns;
          t1, t2 := t1', t2';
        } else if o.mtype == DHCPNAK {
          client, server := ZERO_QUAD, ZERO_QUAD;
          ret := 0;
        } else {
          ret := 0;
        }
      } else {
        ret := 0;
      }
      if ret == 0 {
        UpdateState(o.mtype);
      }
    }

    lemma Awaited(state: S.State)
      ensures S.AwaitsAck(state) ==> S.UpdateState(state, DHCPACK) == S.BOUND && S.UpdateState(state, DHCPNAK) == S.INIT
      ensures state == S.SELECTING ==> !S.AwaitsAck(state) && S.UpdateState(state, DHCPOFFER) == state
    {
    }

    /** dhcp_check_options: the options must be there, and times that are not become infinite. */
    method CheckOptions(o: Options) returns (ret: int, t1: Timespec, t2: Timespec)
      ensures ret == S.CheckOptions(o)
      ensures ret == 0 ==> t1 == OrInfinite(o.t1) && t2 == OrInfinite(o.t2)
      ensures ret != 0 ==> t1 == o.t1 && t2 == o.t2
    {
      t1, t2 := o.t1, o.t2;
      if o.server == ZERO_QUAD {
        ret := S.DHCP_ENOSERVERID;
      } else if o.gateway == ZERO_QUAD {
        ret := S.DHCP_ENOGATEWAY;
      } else if o.subnet == ZERO_QUAD {
        ret := S.DHCP_ENOSUBNET;
      } else {
        if Compare(ZERO, t1) == 0 { t1 := INFINITY; }
        if Compare(ZERO, t2) == 0 { t2 := INFINITY; }
        ret := 0;
      }
    }

    /** bootp_transaction, with the socket that bootp_socket_create did or did not get. */
    method Transaction(w: S.World) returns (ret: int)
      modifies this
      ensures (Value(), ret) == S.Transaction(old(Value()), w)
    {
      hide S.Recv, S.Attempts, S.RequestOf, Zeros;
      if !w.socketOk {
        return S.DHCP_ESYSCALL;
      }
      ret := 0;
      var n := S.DHCP_DISCOVER_RETRIES;
      var attempt := 0;
      while attempt < n
        invariant attempt < n ==> S.Attempts(Value(), w.attempts[attempt..]) == S.Attempts(old(Value()), w.attempts)
        invariant attempt <= n
        invariant attempt == n ==> (Value(), ret) == S.Attempts(old(Value()), w.attempts)
      {
        AttemptsNext(Value(), w.attempts[attempt..]);
        assert attempt + 1 < n ==> w.attempts[attempt..][1..] == w.attempts[attempt + 1..];
        ret := Once(w.attempts[attempt]);
        attempt := attempt + 1;
        if ret == 0 {
          break;
        }
      }
    }

    lemma AttemptsNext(t: S.Trace, attempts: seq<S.Attempt>)
      requires attempts != []
      ensures S.Attempts(t, attempts) ==
              if S.Once(t, attempts[0]).1 == 0 || |attempts| == 1 then S.Once(t, attempts[0])
              else S.Attempts(S.Once(t, attempts[0]).0, attempts[1..])
    {
    }

    /** Send, receive, and on failure start again. */
    method Once(a: S.Attempt) returns (ret: int)
      modifies this
      ensures (Value(), ret) == S.Once(old(Value()), a)
    {
      hide S.Recv, S.RequestOf, S.UpdateState;
      var buf := new Byte[MESSAGE_LEN];
      ret := SendRequest(buf, a.xid, a.sendOk);
      if ret != 0 {
        return;
      }
      ret := RecvReply(a.inbox);
      if ret != 0 {
        state := S.INIT;
      }
    }

    /** get_dhcp_next_event. */
    method NextEvent(now: Timespec) returns (next: int)
      ensures next == S.NextEvent(Binding(), now)
    {
      next := 0;
      if state == S.BOUND || state == S.RENEWING {
        var expiredT1 := Compare(t1, now) <= 0;
        var expiredT2 := Compare(t2, now) <= 0;
        if state == S.BOUND {
          next := if expiredT1 then 0 else Diff(t1, now).sec;
        } else {
          next := if expiredT2 then 0 else Diff(t2, now).sec;
        }
      }
    }

    /** dhcp_step. */
    method Step(w: S.World) returns (next: int)
      modifies this
      ensures (Value(), next) == S.Step(old(Value()), w)
    {
      next := NextEvent(w.before);
      if next == 0 {
        var ret := Transaction(w);
        if ret != 0 {
          next := ret;
        } else {
          next := NextEvent(w.after);
        }
      }
    }

    /**
     dhcp_bind, followed for at most as many steps as ws has: when it returns, the client is
     bound, to what the last accepted ACK granted.
     */
    method Bind(ws: seq<S.World>) returns (next: int, bound: bool, n: nat)
      requires DhcpSafety.Safe(Value())
      modifies this
      ensures n <= |ws| && Value() == S.Run(old(Value()), ws[..n])
      ensures DhcpSafety.Safe(Value())
      ensures bound ==> n > 0 && Binding().IsBound() && DhcpSafety.Holds(Value())
      ensures !bound ==> n == |ws| && forall k | 0 < k <= n :: !S.Run(old(Value()), ws[..k]).b.IsBound()
    {
      hide S.Step, DhcpSafety.Holds, DhcpSafety.LastAck;
      next, bound, n := 0, false, 0;
      while n < |ws|
        invariant n <= |ws| && Value() == S.Run(old(Value()), ws[..n])
        invariant DhcpSafety.Safe(Value())
        invariant forall k | 0 < k <= n :: !S.Run(old(Value()), ws[..k]).b.IsBound()
      {
        DhcpSafety.RunSnoc(old(Value()), ws[..n], ws[n]);
        assert ws[..n + 1] == ws[..n] + [ws[n]];
        DhcpSafety.StepKeeps(Value(), ws[n]);
        next := Step(ws[n]);
        n := n + 1;
        if state == S.BOUND || state == S.RENEWING || state == S.REBINDING {
          bound := true;
          return;
        }
      }
    }
  }
}
