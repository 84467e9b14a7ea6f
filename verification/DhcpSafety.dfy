/** What holds in every run of the DHCP client. */
module DhcpSafety {
  import opened Wrappers
  import opened Bytes
  import opened Timespecs
  import opened DhcpOptions
  import opened DhcpMessage
  import opened DhcpStates

  // ---- the lease ----

  /** A reply to the transaction at hand, without wrong lengths, that acknowledges a request in
      a state that waits for this, and that names a server, a gateway and a subnet. */
  predicate Accepted(mac: Mac, h: Heard) {
    var o := OptionsOf(h.d);
    && AwaitsAck(h.state) && h.d.size > 0 && CheckReply(h.d.mem, mac, h.xid) > OFFSET_OPTIONS
    && !o.lenError && o.mtype == DHCPACK
    && o.server != ZERO_QUAD && o.gateway != ZERO_QUAD && o.subnet != ZERO_QUAD
  }

  /** The last datagram in the history that was accepted. */
  function LastAck(mac: Mac, heard: seq<Heard>): Option<Datagram> {
    if heard == [] then None
    else
      var n := |heard| - 1;
      if Accepted(mac, heard[n]) then Some(heard[n].d) else LastAck(mac, heard[..n])
  }

  lemma LastAckNext(mac: Mac, heard: seq<Heard>, h: Heard)
    ensures LastAck(mac, heard + [h]) == if Accepted(mac, h) then Some(h.d) else LastAck(mac, heard)
  {
    assert (heard + [h])[..|heard|] == heard;
  }

  /** T1 after T2: only from a lease of one second granted when the clock showed zero. */
  predicate Ordered(l: Lease, now: Timespec) {
    l.t2.Less(l.t1) ==> now == ZERO && l.t1 == INFINITY && l.t2 == Timespec(1, 0)
  }

  /** Everything the last accepted message granted, and nothing else. */
  ghost predicate Holds(t: Trace) {
    var ack := LastAck(t.b.mac, t.heard);
    && ack.Some?
    && t.b.lease == Granted(ack.value)
    && t.b.lease.server != ZERO_QUAD && t.b.lease.gateway != ZERO_QUAD && t.b.lease.subnet != ZERO_QUAD
    && Ordered(t.b.lease, ack.value.now)
  }

  ghost predicate Safe(t: Trace) {
    && t.b.state in {INIT, SELECTING, REQUESTING, BOUND, RENEWING}
    && (t.b.state == BOUND || t.b.state == RENEWING ==> Holds(t))
  }

  /** Times come from the last lease option, or there was none. */
  ghost predicate FromLease(o: Options, now: Timespec) {
    (o.t1 == ZERO && o.t2 == ZERO) || exists lease: nat :: o.t1 == LeaseT1(now, lease) && o.t2 == LeaseT2(now, lease)
  }

  lemma {:induction false} ParseFromLease(mem: seq<Byte>, p: nat, end: nat, now: Timespec, o: Options)
    requires end + 5 <= |mem| && FromLease(o, now)
    ensures FromLease(Parse(mem, p, end, now, o), now)
    decreases end - p
  {
    if p < end && mem[p] != OPT_END {
      if mem[p] == OPT_PAD {
        ParseFromLease(mem, p + 1, end, now, o);
      } else {
        var len := mem[p + 1];
        ParseFromLease(mem, p + 2 + len, end, now, Apply(o, mem[p], len, mem[p + 2], mem[p + 2..p + 6], now));
      }
    }
  }

  lemma GrantedOrdered(d: Datagram)
    ensures Ordered(Granted(d), d.now)
  {
    hide Parse, LeaseT1, LeaseT2, OrInfinite, Offered;
    ParseFromLease(d.mem, 240, d.size, d.now, BLANK);
    LeaseOrdered(OptionsOf(d), d.now);
  }

  lemma LeaseOrdered(o: Options, now: Timespec)
    requires FromLease(o, now) && now.Normal() && now.sec >= 0
    ensures OrInfinite(o.t2).Less(OrInfinite(o.t1)) ==>
            now == ZERO && OrInfinite(o.t1) == INFINITY && OrInfinite(o.t2) == Timespec(1, 0)
  {
    hide LeaseT1, LeaseT2, OrInfinite;
    OneSecond(1);
    if lease: nat :| o.t1 == LeaseT1(now, lease) && o.t2 == LeaseT2(now, lease) {
      LeaseOrderExactly(now, lease);
    }
  }

  // ---- safety ----

  /** In the middle of a transaction, when a request has been sent. */
  ghost predicate Waiting(t: Trace) {
    Safe(t) && t.b.state in {SELECTING, REQUESTING, RENEWING}
  }

  lemma HearKeeps(t: Trace, d: Datagram)
    requires Waiting(t) && Skipped(t.b, d)
    ensures Waiting(Hear(t, d))
  {
    hide LastAck;
    LastAckNext(t.b.mac, t.heard, Heard(t.b.state, t.b.xid, d));
  }

  lemma TakeKeeps(t: Trace, d: Datagram)
    requires Waiting(t) && !Skipped(t.b, d)
    ensures var (b, ret) := Take(t.b, d); ret == 0 ==> Safe(Hear(t, d).(b := b))
  {
    hide LastAck;
    LastAckNext(t.b.mac, t.heard, Heard(t.b.state, t.b.xid, d));
    GrantedOrdered(d);
  }

  lemma {:induction false} RecvKeeps(t: Trace, inbox: seq<Datagram>)
    requires Waiting(t)
    ensures var (t', ret) := Recv(t, inbox); ret == 0 ==> Safe(t')
    decreases |inbox|
  {
    if inbox != [] {
      if Skipped(t.b, inbox[0]) {
        HearKeeps(t, inbox[0]);
        RecvKeeps(Hear(t, inbox[0]), inbox[1..]);
      } else {
        TakeKeeps(t, inbox[0]);
      }
    }
  }

  lemma SendKeeps(t: Trace, xid: Quad, ok: bool)
    requires Safe(t)
    ensures Safe(t.(b := Send(t.b, xid, ok)))
    ensures ok ==> Waiting(t.(b := Send(t.b, xid, ok)))
  {
  }

  lemma OnceKeeps(t: Trace, a: Attempt)
    requires Safe(t)
    ensures Safe(Once(t, a).0)
  {
    SendKeeps(t, a.xid, a.sendOk);
    if a.sendOk {
      RecvKeeps(t.(b := Send(t.b, a.xid, true)), a.inbox);
    }
  }

  lemma {:induction false} AttemptsKeep(t: Trace, attempts: seq<Attempt>)
    requires Safe(t) && attempts != []
    ensures Safe(Attempts(t, attempts).0)
    decreases |attempts|
  {
    OnceKeeps(t, attempts[0]);
    var (t', ret) := Once(t, attempts[0]);
    if ret != 0 && |attempts| > 1 {
      AttemptsKeep(t', attempts[1..]);
    }
  }

  lemma StepKeeps(t: Trace, w: World)
    requires Safe(t)
    ensures Safe(Step(t, w).0)
  {
    AttemptsKeep(t, w.attempts);
  }

  lemma {:induction false} RunKeeps(t: Trace, ws: seq<World>)
    requires Safe(t)
    ensures Safe(Run(t, ws))
    decreases |ws|
  {
    if ws != [] {
      StepKeeps(t, ws[0]);
      RunKeeps(Step(t, ws[0]).0, ws[1..]);
    }
  }

  lemma {:induction false} RunSnoc(t: Trace, ws: seq<World>, w: World)
    ensures Run(t, ws + [w]) == Step(Run(t, ws), w).0
    decreases |ws|
  {
    if ws == [] {
      assert Run(Step(t, w).0, []) == Step(t, w).0;
    } else {
      RunSnoc(Step(t, ws[0]).0, ws[1..], w);
      assert (ws + [w])[1..] == ws[1..] + [w];
    }
  }

  /** After any number of steps, with any replies, losses and failures, the client is in one of
      five states, and when it is bound it has what the last accepted ACK granted. */
  lemma AlwaysSafe(mac: Mac, ws: seq<World>)
    ensures Safe(Run(Initial(mac), ws)) && Run(Initial(mac), ws).b.mac == mac
  {
    RunKeeps(Initial(mac), ws);
  }

  // ---- timing ----

  /** The time until which the client may rest: T1 when bound, T2 when renewing. */
  function Due(b: Binding): Timespec {
    if b.state == RENEWING then b.lease.t2 else b.lease.t1
  }

  function Later(t: Timespec, seconds: int): Timespec {
    Timespec(t.sec + seconds, t.nsec)
  }

  /** The number of whole seconds that are left. */
  lemma NextEventExactly(b: Binding, now: Timespec, n: int)
    requires b.state == BOUND || b.state == RENEWING
    requires now.Normal() && Due(b).nsec >= 0 && n > 0
    ensures NextEvent(b, now) >= 0
    ensures NextEvent(b, now) == n <==> !Due(b).Less(Later(now, n)) && Due(b).Less(Later(now, n + 1))
  {
  }

  lemma {:induction false} AttemptsFail(t: Trace, attempts: seq<Attempt>)
    requires attempts != []
    ensures var (t', ret) := Attempts(t, attempts);
            ret != 0 ==> t'.b.state == INIT || (t'.b.state == t.b.state && t'.b.lease == t.b.lease)
    decreases |attempts|
  {
    var (t', ret) := Once(t, attempts[0]);
    if ret != 0 && |attempts| > 1 {
      AttemptsFail(t', attempts[1..]);
    }
  }

  lemma NextEventNat(b: Binding, now: Timespec)
    ensures NextEvent(b, now) >= 0
  {
  }

  /** A step that returns a positive number has the client bound, and that many seconds after
      the clock was read T1, or T2 when renewing, is not past; one second more would be too
      long. After an error the client starts again, unless nothing could be sent: then it is
      where it was. */
  lemma StepResult(t: Trace, w: World)
    requires Safe(t)
    ensures var (t', n) := Step(t, w);
            var now := if NextEvent(t.b, w.before) > 0 then w.before else w.after;
            && (n > 0 ==> t'.b.IsBound() && !Due(t'.b).Less(Later(now, n)) && Due(t'.b).Less(Later(now, n + 1)))
            && (n < 0 ==> t'.b.state == INIT || (t'.b.state == t.b.state && t'.b.lease == t.b.lease))
            && (n >= 0 ==> n == NextEvent(t'.b, now))
  {
    hide Attempts, NextEvent, LastAck, Granted;
    StepKeeps(t, w);
    AttemptsFail(t, w.attempts);
    NextEventNat(t.b, w.before);
    var (t', n) := Step(t, w);
    NextEventNat(t'.b, w.after);
    if n > 0 {
      BoundWhenResting(t'.b, w.before);
      BoundWhenResting(t'.b, w.after);
      DueInRange(t');
      NextEventExactly(t'.b, w.before, n);
      NextEventExactly(t'.b, w.after, n);
    }
  }

  lemma BoundWhenResting(b: Binding, now: Timespec)
    ensures NextEvent(b, now) > 0 ==> b.state == BOUND || b.state == RENEWING
  {
  }

  lemma DueInRange(t: Trace)
    requires Safe(t) && t.b.IsBound()
    ensures Due(t.b).nsec >= 0
  {
    hide Parse, LastAck, Offered;
    var d := LastAck(t.b.mac, t.heard).value;
    ParseFromLease(d.mem, 240, d.size, d.now, BLANK);
  }

  // ---- noise and progress ----

  function HearAll(t: Trace, ds: seq<Datagram>): (r: Trace)
    ensures r.b == t.b
    decreases |ds|
  {
    if ds == [] then t else HearAll(Hear(t, ds[0]), ds[1..])
  }

  /** Datagrams for others, malformed or out of date delay the reply but do not change what it does. */
  lemma {:induction false} NoiseSkipped(t: Trace, noise: seq<Datagram>, rest: seq<Datagram>)
    requires forall i | 0 <= i < |noise| :: Skipped(t.b, noise[i])
    ensures Recv(t, noise + rest) == Recv(HearAll(t, noise), rest)
    decreases |noise|
  {
    if noise == [] {
      assert noise + rest == rest;
    } else {
      assert (noise + rest)[1..] == noise[1..] + rest;
      NoiseSkipped(Hear(t, noise[0]), noise[1..], rest);
    }
  }

  /** What a datagram says, whether or not it will do. */
  function Stated(d: Datagram): Lease {
    var o := OptionsOf(d);
    Lease(Offered(d), o.server, o.gateway, o.subnet, o.dns, o.t1, o.t2)
  }

  /** A reply is refused exactly when it lacks a server, gateway or subnet, and is the offer or
      the ACK that is waited for. A refused offer leaves the binding alone, but a refused ACK
      has replaced the lease by then. */
  lemma RefusedExactly(b: Binding, d: Datagram)
    requires !Skipped(b, d)
    ensures var o, (b', ret) := OptionsOf(d), Take(b, d);
            && (ret != 0 <==> && (o.server == ZERO_QUAD || o.gateway == ZERO_QUAD || o.subnet == ZERO_QUAD)
                              && ((b.state == SELECTING && o.mtype == DHCPOFFER) || (AwaitsAck(b.state) && o.mtype == DHCPACK)))
            && (ret != 0 ==> ret == if o.server == ZERO_QUAD then -5 else if o.gateway == ZERO_QUAD then -6 else -7)
            && (ret != 0 && b.state == SELECTING ==> b' == b)
            && (ret != 0 && AwaitsAck(b.state) ==> b' == b.(lease := Stated(d)))
  {
    hide Parse;
  }

  /** The attempt in which that happens ends in INIT, so that no bound state has such a lease. */
  lemma RefusedRestarts(t: Trace, a: Attempt, noise: seq<Datagram>, reply: Datagram)
    requires a.sendOk && noise + [reply] <= a.inbox
    requires var b := Send(t.b, a.xid, true);
             && (forall i | 0 <= i < |noise| :: Skipped(b, noise[i]))
             && !Skipped(b, reply) && Take(b, reply).1 != 0
    ensures var (t', ret) := Once(t, a);
            ret == Take(Send(t.b, a.xid, true), reply).1 && t'.b == Take(Send(t.b, a.xid, true), reply).0.(state := INIT)
  {
    hide Take, Skipped, OptionsOf, Send;
    RecvReplies(t.(b := Send(t.b, a.xid, true)), a.inbox, noise, reply);
  }

  /** The first datagram that is not skipped decides. */
  lemma RecvReplies(t: Trace, inbox: seq<Datagram>, noise: seq<Datagram>, reply: Datagram)
    requires noise + [reply] <= inbox && !Skipped(t.b, reply)
    requires forall i | 0 <= i < |noise| :: Skipped(t.b, noise[i])
    ensures var (t', ret) := Recv(t, inbox); ret == Take(t.b, reply).1 && t'.b == Take(t.b, reply).0
  {
    hide Take, Skipped;
    var n := |noise| + 1;
    assert inbox == noise + ([reply] + inbox[n..]) by {
      assert inbox == inbox[..n] + inbox[n..];
    }
    NoiseSkipped(t, noise, [reply] + inbox[n..]);
  }

  /** In this attempt a usable reply of type mtype arrives, after any number of useless ones. */
  ghost predicate Answered(w: World, b: Binding, mtype: Byte, noise: seq<Datagram>, reply: Datagram) {
    && w.socketOk && w.attempts[0].sendOk
    && noise + [reply] <= w.attempts[0].inbox
    && (forall i | 0 <= i < |noise| :: Skipped(b, noise[i]))
    && !Skipped(b, reply) && OptionsOf(reply).mtype == mtype && CheckOptions(OptionsOf(reply)) == 0
  }

  lemma AnsweredOnce(t: Trace, w: World, mtype: Byte, noise: seq<Datagram>, reply: Datagram)
    requires Answered(w, Send(t.b, w.attempts[0].xid, true), mtype, noise, reply)
    requires Take(Send(t.b, w.attempts[0].xid, true), reply).1 == 0
    ensures var (t', ret) := Transaction(t, w);
            ret == 0 && t'.b == Take(Send(t.b, w.attempts[0].xid, true), reply).0
  {
    hide Take, Skipped, OptionsOf, Send;
    var a := w.attempts[0];
    RecvReplies(t.(b := Send(t.b, a.xid, true)), a.inbox, noise, reply);
  }

  /** From INIT, a server that answers twice gets the client bound in two steps, to what its ACK
      grants. The request names the server and the address that were offered, and both
      exchanges are one transaction. */
  lemma TwoStepsBind(t: Trace, w1: World, w2: World, noise1: seq<Datagram>, offer: Datagram, noise2: seq<Datagram>, ack: Datagram)
    requires t.b.state == INIT
    requires var b := t.b.(state := SELECTING, xid := w1.attempts[0].xid);
             && Answered(w1, b, DHCPOFFER, noise1, offer)
             && Answered(w2, b, DHCPACK, noise2, ack)
    ensures var xid, t1 := w1.attempts[0].xid, Step(t, w1).0;
            && t1.b.state == SELECTING
            && RequestOf(t1.b) == Request(xid, ZERO_QUAD, t.b.mac, RequestOptions(DHCPREQUEST, true, OptionsOf(offer).server, Offered(offer)))
            && Step(t1, w2).0.b == Binding(BOUND, t.b.mac, xid, Granted(ack))
  {
    hide Parse, CheckReply, Request, Recv, Attempts, RequestOptions;
    var b := t.b.(state := SELECTING, xid := w1.attempts[0].xid);
    assert Send(t.b, w1.attempts[0].xid, true) == b;
    AnsweredOnce(t, w1, DHCPOFFER, noise1, offer);
    var t1 := Step(t, w1).0;
    var b1 := Send(t1.b, w2.attempts[0].xid, true);
    assert b1.mac == b.mac && b1.xid == b.xid && b1.state == REQUESTING;
    SameTransaction(w2, b, b1, DHCPACK, noise2, ack);
    AnsweredOnce(t1, w2, DHCPACK, noise2, ack);
  }

  lemma SameTransaction(w: World, b: Binding, b': Binding, mtype: Byte, noise: seq<Datagram>, reply: Datagram)
    requires b.mac == b'.mac && b.xid == b'.xid && Answered(w, b, mtype, noise, reply)
    ensures Answered(w, b', mtype, noise, reply)
  {
    hide Parse, CheckReply;
    forall i | 0 <= i < |noise|
      ensures Skipped(b', noise[i])
    {
      assert Skipped(b, noise[i]);
    }
  }

  // ---- what the messages mean ----

  /** A server's reply, with any well-formed options, is read as it is meant: by the client and in
      the transaction that it names, with the address and the options in it. */
  lemma ReplyIsRead(d: Datagram, f: Fields, opts: seq<Opt>, b: Binding)
    requires f.Ok() && d.mem[..240] == f.Bytes() && AllOk(opts) && At(d.mem, 240, d.size, opts)
    requires forall i | 0 <= i < |opts| :: opts[i].WellFormed()
    ensures Skipped(b, d) <==> !(b.mac == f.mac && b.xid == f.xid)
    ensures Offered(d) == f.yiaddr && OptionsOf(d) == Fold(BLANK, opts, d.now)
  {
    hide Parse, Fold, At, CheckReply;
    ReplyPasses(d.mem, f, b.mac, b.xid);
    ParseIsFold(d.mem, 240, d.size, d.now, BLANK, opts);
    FoldFields(BLANK, opts, d.now);
    AtWithin(d.mem, 240, d.size, opts);
  }

  lemma AtWithin(mem: seq<Byte>, p: nat, end: nat, opts: seq<Opt>)
    requires AllOk(opts) && At(mem, p, end, opts)
    ensures p < end
  {
  }

  /** An ACK among such replies grants the address it assigns, and what its last option of each
      kind says: 54 the server, 3 the gateway, 1 the subnet and 6 the DNS servers. */
  lemma GrantIsRead(d: Datagram, f: Fields, opts: seq<Opt>)
    requires f.Ok() && d.mem[..240] == f.Bytes() && AllOk(opts) && At(d.mem, 240, d.size, opts)
    requires forall i | 0 <= i < |opts| :: opts[i].WellFormed()
    ensures var l, servers := Granted(d), Field(opts, 6, ZERO_QUAD);
            && l.client == f.yiaddr && l.server == Field(opts, 54, ZERO_QUAD) && l.gateway == Field(opts, 3, ZERO_QUAD)
            && l.subnet == Field(opts, 1, ZERO_QUAD) && |servers| >= 4 && l.dns == servers[..4]
    ensures [OptionsOf(d).mtype] == Field(opts, 53, [0])
  {
    hide Parse, Fold, At, Field, OrInfinite;
    ReplyIsRead(d, f, opts, Binding(INIT, f.mac, f.xid, Granted(d)));
    FoldFields(BLANK, opts, d.now);
    FoldDns(BLANK, opts, d.now, ZERO_QUAD);
  }

  /** The lease that it grants, in the seconds of its option 51: T1 is half of it and T2 seven
      eighths, after the time of receipt, to within a second. Both are infinite when the lease
      is, or when there is none. */
  lemma GrantedLease(d: Datagram, opts: seq<Opt>)
    requires AllOk(opts) && At(d.mem, 240, d.size, opts)
    requires forall i | 0 <= i < |opts| :: opts[i].WellFormed()
    ensures var l, option := Granted(d), Field(opts, 51, []);
            if |option| != 4 || Get32(option) >= INT_MAX then l.t1 == l.t2 == INFINITY
            else
              var lease := Get32(option);
              && (l.t1 == INFINITY || Fraction(l.t1, d.now, lease, 4))
              && (l.t2 == INFINITY || Fraction(l.t2, d.now, lease, 7))
              && (l.t1 == INFINITY <==> d.now == ZERO && lease < 2)
              && (l.t2 == INFINITY <==> d.now == ZERO && lease == 0)
  {
    hide Parse, Fold, At, Field, Get32, LeaseT1, LeaseT2, OrInfinite;
    ParseIsFold(d.mem, 240, d.size, d.now, BLANK, opts);
    FoldLease(BLANK, opts, d.now, []);
    var option := Field(opts, 51, []);
    LeaseGranted(d.now, if |option| == 4 then Get32(option) else 0);
  }

  /** t is eighths of the lease after now, to within a second. */
  predicate Fraction(t: Timespec, now: Timespec, lease: nat, eighths: nat) {
    t.nsec == now.nsec && eighths * lease - 8 < 8 * (t.sec - now.sec) < eighths * lease + 8
  }

  lemma LeaseGranted(now: Timespec, lease: nat)
    requires now.Normal() && now.sec >= 0
    ensures OrInfinite(ZERO) == OrInfinite(INFINITY) == INFINITY
    ensures lease >= INT_MAX ==> LeaseT1(now, lease) == LeaseT2(now, lease) == INFINITY
    ensures lease < INT_MAX ==>
              var t1, t2 := OrInfinite(LeaseT1(now, lease)), OrInfinite(LeaseT2(now, lease));
              && (if now == ZERO && lease < 2 then t1 == INFINITY else Fraction(t1, now, lease, 4) && t1 != INFINITY)
              && (if now == ZERO && lease == 0 then t2 == INFINITY else Fraction(t2, now, lease, 7) && t2 != INFINITY)
  {
    hide LeaseT1, LeaseT2;
    LeaseExactly(now, lease);
  }

  /** A bound client rests until half of the lease that the last accepted ACK granted has passed,
      and a renewing one until seven eighths of it. */
  lemma DueByLease(t: Trace, opts: seq<Opt>)
    requires Safe(t) && (t.b.state == BOUND || t.b.state == RENEWING)
    requires var d := LastAck(t.b.mac, t.heard).value;
             && AllOk(opts) && At(d.mem, 240, d.size, opts) && (forall i | 0 <= i < |opts| :: opts[i].WellFormed())
             && |Field(opts, 51, [])| == 4 && Get32(Field(opts, 51, [])) < INT_MAX && d.now != ZERO
    ensures var d := LastAck(t.b.mac, t.heard).value;
            Fraction(Due(t.b), d.now, Get32(Field(opts, 51, [])), if t.b.state == BOUND then 4 else 7)
  {
    hide LastAck, At, Field, Granted, Get32;
    GrantedLease(LastAck(t.b.mac, t.heard).value, opts);
  }

  /** The message that a client sends: by the offsets of RFC 2131 and the codes of RFC 2132, its
      address when it is bound and zero otherwise, its hardware address and transaction, a
      DISCOVER in INIT and a REQUEST in all other states, which in SELECTING names the server and
      the address that it wants. */
  lemma RequestFields(b: Binding)
    ensures var r := RequestOf(b);
            && |r| == 548 && r[..4] == [1, 1, 6, 0] && r[4..8] == b.xid && r[8..12] == [0, 0, 0x80, 0]
            && r[12..16] == (if b.state in {BOUND, RENEWING, REBINDING} then b.lease.client else ZERO_QUAD)
            && r[16..28] == Zeros(12) && r[28..34] == b.mac && r[34..236] == Zeros(202) && r[236..240] == [99, 130, 83, 99]
    ensures var opts := [Opt(53, [if b.state == INIT then 1 else 3]), Opt(55, [3, 1, 6]), Opt(51, [0xFF, 0xFF, 0xFF, 0xFF])]
                        + if b.state == SELECTING then [Opt(54, b.lease.server), Opt(50, b.lease.client)] else [];
            AllOk(opts) && At(RequestOf(b), 240, 548, opts)
  {
    hide Request, Header, At;
    var ciaddr := if b.IsBound() then b.lease.client else ZERO_QUAD;
    RequestBytes(b.xid, ciaddr, b.mac, RequestType(b.state), b.state == SELECTING, b.lease.server, b.lease.client);
    HeaderFields(b.xid, ciaddr, b.mac);
    var r := RequestOf(b);
    assert r[..4] == r[..240][..4] && r[4..8] == r[..240][4..8] && r[8..12] == r[..240][8..12] && r[12..16] == r[..240][12..16];
    assert r[16..28] == r[..240][16..28] && r[28..34] == r[..240][28..34] && r[34..236] == r[..240][34..236];
    assert r[236..240] == r[..240][236..];
  }

  // ---- what else the client does ----

  /** A NAK makes a client that waits for an ACK start again, without address and server. */
  lemma NakExactly(b: Binding, d: Datagram)
    requires !Skipped(b, d) && OptionsOf(d).mtype == 6 && b.state in {REQUESTING, RENEWING, REBINDING, REBOOTING}
    ensures Take(b, d) == (b.(state := INIT, lease := b.lease.(client := ZERO_QUAD, server := ZERO_QUAD)), 0)
  {
  }

  /** Replies of other types end the wait and change nothing: except that one of type REQUEST,
      which no server sends, makes a client in SELECTING believe that it has sent its request. */
  lemma OtherTypesExactly(b: Binding, d: Datagram)
    requires !Skipped(b, d) && b.state in {SELECTING, REQUESTING, RENEWING}
    requires OptionsOf(d).mtype !in if b.state == SELECTING then {2} else {5, 6}
    ensures Take(b, d) == (b.(state := if b.state == SELECTING && OptionsOf(d).mtype == 3 then REQUESTING else b.state), 0)
  {
  }

  /** As long as there is a second left, a step does nothing but tell how many there are. */
  lemma RestsUntilDue(t: Trace, w: World)
    requires NextEvent(t.b, w.before) > 0
    ensures Step(t, w) == (t, NextEvent(t.b, w.before))
  {
  }

  /** From any state that waits for an ACK once a request has been sent, in which the time has
      come, a usable ACK binds the client, anew or for the first time, to what it grants. */
  lemma AckBinds(t: Trace, w: World, noise: seq<Datagram>, ack: Datagram)
    requires t.b.state in {SELECTING, REQUESTING, BOUND, RENEWING} && NextEvent(t.b, w.before) <= 0
    requires var xid := if t.b.state == SELECTING then t.b.xid else w.attempts[0].xid;
             Answered(w, t.b.(xid := xid), DHCPACK, noise, ack)
    ensures var xid := if t.b.state == SELECTING then t.b.xid else w.attempts[0].xid;
            var b := Binding(BOUND, t.b.mac, xid, Granted(ack));
            Step(t, w).0.b == b && Step(t, w).1 == NextEvent(b, w.after)
  {
    hide Parse, CheckReply, Recv, Attempts, NextEvent, Granted;
    var xid := if t.b.state == SELECTING then t.b.xid else w.attempts[0].xid;
    var b1 := Send(t.b, w.attempts[0].xid, true);
    SameTransaction(w, t.b.(xid := xid), b1, DHCPACK, noise, ack);
    NextEventNat(t.b, w.before);
    AnsweredOnce(t, w, DHCPACK, noise, ack);
  }

  /** An empty datagram is skipped, but a header alone ends the wait, and changes nothing. */
  lemma ShortReplies(b: Binding, d: Datagram)
    requires b.state in {SELECTING, REQUESTING, RENEWING}
    ensures d.size == 0 ==> Skipped(b, d)
    ensures 0 < d.size <= 240 && CheckReply(d.mem, b.mac, b.xid) > OFFSET_OPTIONS ==> !Skipped(b, d) && Take(b, d) == (b, 0)
  {
    hide CheckReply;
  }

  /** The transitions of section 4.4 of RFC 2131 that the client knows, by the messages that it
      sends (1 DISCOVER, 3 REQUEST) and receives (5 ACK, 6 NAK); no other message moves it. */
  lemma TransitionsExactly(state: State, mtype: Byte)
    ensures UpdateState(state, mtype) ==
            if (state, mtype) == (INIT, 1) then SELECTING
            else if (state, mtype) == (SELECTING, 3) then REQUESTING
            else if (state, mtype) == (BOUND, 3) then RENEWING
            else if (state, mtype) == (INIT_REBOOT, 3) then REBOOTING
            else if state in {REQUESTING, RENEWING, REBINDING, REBOOTING} && mtype in {5, 6} then if mtype == 5 then BOUND else INIT
            else state
  {
  }

  /** Without a socket nothing is sent and nothing changes. */
  lemma NoSocket(t: Trace, w: World)
    requires NextEvent(t.b, w.before) <= 0 && !w.socketOk
    ensures Step(t, w) == (t, -2)
  {
    NextEventNat(t.b, w.before);
  }

  // ---- retries ----

  /** After k attempts. */
  function AfterAttempts(t: Trace, attempts: seq<Attempt>, k: nat): Trace
    requires k <= |attempts|
    decreases k
  {
    if k == 0 then t else AfterAttempts(Once(t, attempts[0]).0, attempts[1..], k - 1)
  }

  /** The first attempt that succeeds ends the transaction, and otherwise the last one does. */
  lemma {:induction false} RetriesExactly(t: Trace, attempts: seq<Attempt>, k: nat)
    requires k < |attempts|
    requires forall i | 0 <= i < k :: Once(AfterAttempts(t, attempts, i), attempts[i]).1 != 0
    requires Once(AfterAttempts(t, attempts, k), attempts[k]).1 == 0 || k == |attempts| - 1
    ensures Attempts(t, attempts) == Once(AfterAttempts(t, attempts, k), attempts[k])
    decreases k
  {
    hide Once;
    if k > 0 {
      assert Once(AfterAttempts(t, attempts, 0), attempts[0]).1 != 0;
      var t1, rest := Once(t, attempts[0]).0, attempts[1..];
      forall i | 0 <= i < k - 1
        ensures Once(AfterAttempts(t1, rest, i), rest[i]).1 != 0
      {
        assert AfterAttempts(t, attempts, i + 1) == AfterAttempts(t1, rest, i);
      }
      RetriesExactly(t1, rest, k - 1);
    }
  }

  /** When a request is sent and no usable reply comes in any of the three attempts, the client
      is back in INIT, and the step returns the error of a system call. */
  lemma SilenceRestarts(t: Trace, w: World)
    requires NextEvent(t.b, w.before) <= 0 && w.socketOk
    requires forall i | 0 <= i < 3 :: w.attempts[i].sendOk && w.attempts[i].inbox == []
    ensures Step(t, w).1 == -2 && Step(t, w).0 == t.(b := Step(t, w).0.b) && Step(t, w).0.b.state == INIT
    ensures Step(t, w).0.b.lease == t.b.lease && Step(t, w).0.b.xid == w.attempts[2].xid
  {
    hide Parse, CheckReply, NextEvent;
    NextEventNat(t.b, w.before);
    var t1 := Once(t, w.attempts[0]).0;
    var t2 := Once(t1, w.attempts[1]).0;
    assert AfterAttempts(t, w.attempts, 1) == t1;
    assert w.attempts[1..][0] == w.attempts[1];
    assert AfterAttempts(t1, w.attempts[1..], 1) == t2;
    RetriesExactly(t, w.attempts, 2);
  }
}
