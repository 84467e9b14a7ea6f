/**
 The states of the DHCP client (src/dhcp_client.c:260-292, 363-606, 670-788), those of section
 4.4 of RFC 2131, on values. What the network and the clock do is given by arguments: which
 sends succeed, which datagrams arrive until a receive fails, and what the clock shows.
 */
module DhcpStates {
  import opened Bytes
  import opened Timespecs
  import opened DhcpOptions
  import opened DhcpMessage

  datatype State = INIT | SELECTING | REQUESTING | BOUND | INIT_REBOOT | REBOOTING | RENEWING | REBINDING

  const DHCP_ESYSCALL := -2
  const DHCP_ENOSERVERID := -5
  const DHCP_ENOGATEWAY := -6
  const DHCP_ENOSUBNET := -7

  datatype Lease = Lease(client: Quad, server: Quad, gateway: Quad, subnet: Quad, dns: Quad, t1: Timespec, t2: Timespec)

  datatype Binding = Binding(state: State, mac: Mac, xid: Quad, lease: Lease) {
    /** dhcp_isbound. */
    predicate IsBound() {
      state == BOUND || state == RENEWING || state == REBINDING
    }
  }

  /** A datagram received: the buffer, with whatever lies beyond the size bytes received, and
      the clock when it is read. */
  datatype RawDatagram = Datagram(mem: seq<Byte>, size: nat, now: Timespec)
  type Datagram = d: RawDatagram |
    |d.mem| >= MESSAGE_LEN + 5 && d.size <= MESSAGE_LEN && d.now.Normal() && d.now.sec >= 0
    witness Datagram(Zeros(MESSAGE_LEN + 5), 0, ZERO)

  /** What is known of a datagram once it has been received. */
  datatype Heard = Heard(state: State, xid: Quad, d: Datagram)

  /** The binding, and the history of everything the client has received. */
  datatype Trace = Trace(b: Binding, heard: seq<Heard>)

  /** dhcp_init. */
  function Initial(mac: Mac): Trace {
    Trace(Binding(INIT, mac, ZERO_QUAD, Lease(ZERO_QUAD, ZERO_QUAD, ZERO_QUAD, ZERO_QUAD, ZERO_QUAD, ZERO, ZERO)), [])
  }

  // ---- one message ----

  /** dhcp_update_state. */
  function UpdateState(state: State, mtype: Byte): State {
    match state
    case INIT => if mtype == DHCPDISCOVER then SELECTING else state
    case SELECTING => if mtype == DHCPREQUEST then REQUESTING else state
    case REQUESTING | REBINDING | RENEWING | REBOOTING =>
      if mtype == DHCPACK then BOUND else if mtype == DHCPNAK then INIT else state
    case BOUND => if mtype == DHCPREQUEST then RENEWING else state
    case INIT_REBOOT => if mtype == DHCPREQUEST then REBOOTING else state
  }

  /** The result of dhcp_check_options. */
  function CheckOptions(o: Options): (ret: int)
    ensures ret <= 0
    ensures ret == 0 <==> o.server != ZERO_QUAD && o.gateway != ZERO_QUAD && o.subnet != ZERO_QUAD
  {
    if o.server == ZERO_QUAD then DHCP_ENOSERVERID
    else if o.gateway == ZERO_QUAD then DHCP_ENOGATEWAY
    else if o.subnet == ZERO_QUAD then DHCP_ENOSUBNET
    else 0
  }

  /** YIADDR. */
  function Offered(d: Datagram): Quad {
    d.mem[16..20]
  }

  function OptionsOf(d: Datagram): Options {
    Parse(d.mem, 240, d.size, d.now, BLANK)
  }

  /** What a datagram grants to the client that accepts it. */
  function Granted(d: Datagram): Lease {
    var o := OptionsOf(d);
    Lease(Offered(d), o.server, o.gateway, o.subnet, o.dns, OrInfinite(o.t1), OrInfinite(o.t2))
  }

  /** Empty, for another client, of another transaction or malformed: the client goes on waiting. */
  predicate Skipped(b: Binding, d: Datagram) {
    d.size == 0 || CheckReply(d.mem, b.mac, b.xid) <= OFFSET_OPTIONS || OptionsOf(d).lenError
  }

  predicate AwaitsAck(state: State) {
    state in {REQUESTING, RENEWING, REBINDING, REBOOTING}
  }

  /** A datagram that is not skipped. An ACK is stored even if it is then refused. */
  function Take(b: Binding, d: Datagram): (Binding, int) {
    var o := OptionsOf(d);
    var ret := CheckOptions(o);
    if o.mtype == DHCPOFFER && b.state == SELECTING then
      if ret == 0 then (b.(lease := b.lease.(client := Offered(d), server := o.server)), 0) else (b, ret)
    else if AwaitsAck(b.state) && o.mtype == DHCPACK then
      if ret == 0 then (b.(lease := Granted(d), state := BOUND), 0)
      else (b.(lease := Lease(Offered(d), o.server, o.gateway, o.subnet, o.dns, o.t1, o.t2)), ret)
    else if AwaitsAck(b.state) && o.mtype == DHCPNAK then
      (b.(lease := b.lease.(client := ZERO_QUAD, server := ZERO_QUAD), state := INIT), 0)
    else
      (b.(state := UpdateState(b.state, o.mtype)), 0)
  }

  // ---- one transaction ----

  function Hear(t: Trace, d: Datagram): Trace {
    t.(heard := t.heard + [Heard(t.b.state, t.b.xid, d)])
  }

  /** recv_bootp_reply, with the datagrams that arrive before the receive fails. */
  function Recv(t: Trace, inbox: seq<Datagram>): (r: (Trace, int))
    ensures r.1 <= 0 && r.0.b.mac == t.b.mac
    decreases |inbox|
  {
    if inbox == [] then (t, DHCP_ESYSCALL)
    else if Skipped(t.b, inbox[0]) then Recv(Hear(t, inbox[0]), inbox[1..])
    else
      var (b, ret) := Take(t.b, inbox[0]);
      (Hear(t, inbox[0]).(b := b), ret)
  }

  function RequestType(state: State): Byte {
    if state == INIT then DHCPDISCOVER else DHCPREQUEST
  }

  /** A request keeps the transaction of the offer that it answers. */
  function Tagged(b: Binding, xid: Quad): Binding {
    if b.state == SELECTING then b else b.(xid := xid)
  }

  /** The message sent in the state of b. */
  function RequestOf(b: Binding): seq<Byte> {
    Request(b.xid, if b.IsBound() then b.lease.client else ZERO_QUAD, b.mac,
            RequestOptions(RequestType(b.state), b.state == SELECTING, b.lease.server, b.lease.client))
  }

  /** send_bootp_request; xid is the random number of gen_xid. */
  function Send(b: Binding, xid: Quad, ok: bool): Binding {
    var b := Tagged(b, xid);
    if ok then b.(state := UpdateState(b.state, RequestType(b.state))) else b
  }

  datatype Attempt = Attempt(xid: Quad, sendOk: bool, inbox: seq<Datagram>)

  /** One round of the loop of bootp_transaction. */
  function Once(t: Trace, a: Attempt): (r: (Trace, int))
    ensures r.1 <= 0 && r.0.b.mac == t.b.mac
  {
    var t := t.(b := Send(t.b, a.xid, a.sendOk));
    if !a.sendOk then (t, DHCP_ESYSCALL)
    else
      var (t', ret) := Recv(t, a.inbox);
      (if ret == 0 then t' else t'.(b := t'.b.(state := INIT)), ret)
  }

  /** The attempts, up to the first that succeeds. */
  function Attempts(t: Trace, attempts: seq<Attempt>): (r: (Trace, int))
    requires attempts != []
    ensures r.1 <= 0 && r.0.b.mac == t.b.mac
    decreases |attempts|
  {
    var (t', ret) := Once(t, attempts[0]);
    if ret == 0 || |attempts| == 1 then (t', ret) else Attempts(t', attempts[1..])
  }

  // ---- steps ----

  /** get_dhcp_next_event. */
  function NextEvent(b: Binding, now: Timespec): int {
    if b.state == BOUND then if Compare(b.lease.t1, now) <= 0 then 0 else Diff(b.lease.t1, now).sec
    else if b.state == RENEWING then if Compare(b.lease.t2, now) <= 0 then 0 else Diff(b.lease.t2, now).sec
    else 0
  }

  const DHCP_DISCOVER_RETRIES: nat := 3

  /** What happens during a step: the clock before, the socket, the attempts, the clock after. */
  datatype RawWorld = World(before: Timespec, socketOk: bool, attempts: seq<Attempt>, after: Timespec)
  type World = w: RawWorld |
    |w.attempts| == DHCP_DISCOVER_RETRIES && w.before.Normal() && w.after.Normal()
    witness World(ZERO, false, [Attempt(ZERO_QUAD, false, []), Attempt(ZERO_QUAD, false, []), Attempt(ZERO_QUAD, false, [])], ZERO)

  /** bootp_transaction. */
  function Transaction(t: Trace, w: World): (Trace, int) {
    if w.socketOk then Attempts(t, w.attempts) else (t, DHCP_ESYSCALL)
  }

  /** dhcp_step. */
  function Step(t: Trace, w: World): (Trace, int) {
    var next := NextEvent(t.b, w.before);
    if next != 0 then (t, next)
    else
      var (t', ret) := Transaction(t, w);
      (t', if ret != 0 then ret else NextEvent(t'.b, w.after))
  }

  /** Any number of steps. */
  function Run(t: Trace, ws: seq<World>): (r: Trace)
    ensures r.b.mac == t.b.mac
    decreases |ws|
  {
    if ws == [] then t else Run(Step(t, ws[0]).0, ws[1..])
  }
}
