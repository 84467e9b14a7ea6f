/**
 The options of DHCP messages (src/dhcp_client.c:173-258): the parser, which reads type,
 length and value triples out of the message buffer, against the format of section 2 of
 RFC 2132.
 */
module DhcpOptions {
  import opened Bytes
  import opened Timespecs

  const OPT_PAD: Byte := 0
  const OPT_SUBNET: Byte := 1
  const OPT_ROUTER: Byte := 3
  const OPT_DOMAIN_NAME_SERVER: Byte := 6
  const OPT_REQUESTED_IP_ADDRESS: Byte := 50
  const OPT_IP_ADDRESS_LEASE_TIME: Byte := 51
  const OPT_DHCP_MESSAGE_TYPE: Byte := 53
  const OPT_SERVER_IDENTIFIER: Byte := 54
  const OPT_PARAMETER_REQUEST_LIST: Byte := 55
  const OPT_END: Byte := 255

  /** What the parser extracts: the message type and the fields of the binding. */
  datatype Options = Options(mtype: Byte, server: Quad, subnet: Quad, gateway: Quad, dns: Quad,
                             t1: Timespec, t2: Timespec, lenError: bool)

  /** Before anything is read: memset to 0. */
  const BLANK := Options(0, ZERO_QUAD, ZERO_QUAD, ZERO_QUAD, ZERO_QUAD, ZERO, ZERO, false)

  // ---- leases ----

  /** T1, half of the lease, and T2, seven eighths of it, from now. */
  function LeaseT1(now: Timespec, lease: nat): Timespec {
    if lease >= INT_MAX then INFINITY else Add(now, Timespec(lease / 2, 0))
  }

  function LeaseT2(now: Timespec, lease: nat): Timespec {
    if lease >= INT_MAX then INFINITY else Add(now, Timespec(lease - lease / 8, 0))
  }

  /** T1 is half of the lease, rounded down to a second, and T2 seven eighths of it, rounded up,
      after now. */
  lemma LeaseExactly(now: Timespec, lease: nat)
    requires now.Normal()
    ensures lease >= INT_MAX ==> LeaseT1(now, lease) == LeaseT2(now, lease) == INFINITY
    ensures lease < INT_MAX ==>
              var t1, t2 := LeaseT1(now, lease), LeaseT2(now, lease);
              && t1.nsec == now.nsec && 2 * (t1.sec - now.sec) <= lease < 2 * (t1.sec - now.sec) + 2
              && t2.nsec == now.nsec && 7 * lease <= 8 * (t2.sec - now.sec) < 7 * lease + 8
  {
  }

  /** dhcp_check_options: a time that was not set is infinite. */
  function OrInfinite(t: Timespec): Timespec {
    if Compare(ZERO, t) == 0 then INFINITY else t
  }

  /** T1 is not after T2, as get_dhcp_next_event relies on, for every lease and every clock,
      except for a lease of one second given out when the clock shows exactly zero. */
  lemma LeaseOrderExactly(now: Timespec, lease: nat)
    requires now.Normal() && now.sec >= 0
    ensures OrInfinite(LeaseT2(now, lease)).Less(OrInfinite(LeaseT1(now, lease))) <==>
            now == ZERO && lease == 1
  {
  }

  /** In that case T1 is taken for one that was not set. */
  lemma OneSecond(lease: nat)
    requires lease == 1
    ensures OrInfinite(LeaseT1(ZERO, lease)) == INFINITY && OrInfinite(LeaseT2(ZERO, lease)) == Timespec(1, 0)
  {
    hide Compare;
    assert Add(ZERO, ZERO) == ZERO && Add(ZERO, Timespec(1, 0)) == Timespec(1, 0);
    assert lease / 2 == 0 && lease - lease / 8 == 1;
    assert Compare(ZERO, ZERO) == 0 && Compare(ZERO, Timespec(1, 0)) != 0;
  }

  // ---- the parser ----

  /** The case distinction of the parser: code and length have been read, first and quad are
      the byte and the four bytes that follow. */
  function Apply(o: Options, code: Byte, len: Byte, first: Byte, quad: Quad, now: Timespec): Options {
    if code == OPT_DHCP_MESSAGE_TYPE then
      o.(mtype := first, lenError := o.lenError || len != 1)
    else if code == OPT_SERVER_IDENTIFIER then
      o.(server := quad, lenError := o.lenError || len != 4)
    else if code == OPT_IP_ADDRESS_LEASE_TIME then
      o.(t1 := LeaseT1(now, Get32(quad)), t2 := LeaseT2(now, Get32(quad)), lenError := o.lenError || len != 4)
    else if code == OPT_SUBNET then
      o.(subnet := quad, lenError := o.lenError || len != 4)
    else if code == OPT_ROUTER then
      o.(gateway := quad, lenError := o.lenError || len != 4)
    else if code == OPT_DOMAIN_NAME_SERVER then
      o.(dns := quad, lenError := o.lenError || len % 4 != 0)
    else o
  }

  /**
   The options from p up to end. mem goes on for at least five bytes after end: so far, and
   no further, does the parser read past the end of a truncated option.
   */
  function Parse(mem: seq<Byte>, p: nat, end: nat, now: Timespec, o: Options): Options
    requires end + 5 <= |mem|
    decreases end - p
  {
    if p >= end || mem[p] == OPT_END then o
    else if mem[p] == OPT_PAD then Parse(mem, p + 1, end, now, o)
    else
      var len := mem[p + 1];
      Parse(mem, p + 2 + len, end, now, Apply(o, mem[p], len, mem[p + 2], mem[p + 2..p + 6], now))
  }

  /** dhcp_parse_options. */
  method ParseOptions(mem: seq<Byte>, start: nat, end: nat, now: Timespec) returns (o: Options)
    requires end + 5 <= |mem|
    ensures o == Parse(mem, start, end, now, BLANK)
  {
    o := BLANK;
    var p: nat := start;
    while p < end
      invariant Parse(mem, p, end, now, o) == Parse(mem, start, end, now, BLANK)
      decreases end - p
    {
      var option := mem[p];
      p := p + 1;
      if option == OPT_PAD {
        continue;
      } else if option == OPT_END {
        break;
      }
      var len := mem[p];
      p := p + 1;
      o := Apply(o, option, len, mem[p], mem[p..p + 4], now);
      p := p + len;
    }
  }

  // ---- the format ----

  /** A pad byte, or an option with its data. */
  datatype Opt = Pad | Opt(code: Byte, data: seq<Byte>) {
    predicate Ok() {
      Opt? ==> code != OPT_PAD && code != OPT_END && |data| <= 255
    }

    function Bytes(): (r: seq<Byte>)
      requires Ok()
    {
      if Pad? then [OPT_PAD] else [code, |data|] + data
    }

    /** The length RFC 2132 gives to the options that the client reads. */
    predicate LenOk() {
      Opt? ==>
        && (code == OPT_DHCP_MESSAGE_TYPE ==> |data| == 1)
        && (code in {OPT_SERVER_IDENTIFIER, OPT_IP_ADDRESS_LEASE_TIME, OPT_SUBNET, OPT_ROUTER} ==> |data| == 4)
        && (code == OPT_DOMAIN_NAME_SERVER ==> |data| % 4 == 0)
    }

    /** A list of DNS servers with no server in it passes the check, but has nothing to read. */
    predicate WellFormed() {
      Ok() && LenOk() && (Opt? && code == OPT_DOMAIN_NAME_SERVER ==> data != [])
    }
  }

  predicate AllOk(opts: seq<Opt>) {
    forall i | 0 <= i < |opts| :: opts[i].Ok()
  }

  /** The options in the message at p, and the end marker after them. */
  ghost predicate At(mem: seq<Byte>, p: nat, end: nat, opts: seq<Opt>)
    requires AllOk(opts)
    decreases |opts|
  {
    if opts == [] then p < end <= |mem| && mem[p] == OPT_END
    else
      var b := opts[0].Bytes();
      p + |b| < end <= |mem| && mem[p..p + |b|] == b && At(mem, p + |b|, end, opts[1..])
  }

  /** What an option means for the client. */
  function Meaning(o: Options, opt: Opt, now: Timespec): Options
    requires opt.WellFormed()
  {
    if opt.Pad? then o
    else if opt.code == OPT_DHCP_MESSAGE_TYPE then o.(mtype := opt.data[0])
    else if opt.code == OPT_SERVER_IDENTIFIER then o.(server := opt.data)
    else if opt.code == OPT_IP_ADDRESS_LEASE_TIME then
      o.(t1 := LeaseT1(now, Get32(opt.data)), t2 := LeaseT2(now, Get32(opt.data)))
    else if opt.code == OPT_SUBNET then o.(subnet := opt.data)
    else if opt.code == OPT_ROUTER then o.(gateway := opt.data)
    else if opt.code == OPT_DOMAIN_NAME_SERVER then o.(dns := opt.data[..4])
    else o
  }

  /** One after the other: the last of several options of a kind wins. */
  function Fold(o: Options, opts: seq<Opt>, now: Timespec): Options
    requires forall i | 0 <= i < |opts| :: opts[i].WellFormed()
    decreases |opts|
  {
    if opts == [] then o else Fold(Meaning(o, opts[0], now), opts[1..], now)
  }

  /** The data of the last option with this code, or a default. */
  function Field(opts: seq<Opt>, code: Byte, default_: seq<Byte>): seq<Byte>
    decreases |opts|
  {
    if opts == [] then default_
    else Field(opts[1..], code, if opts[0].Opt? && opts[0].code == code then opts[0].data else default_)
  }

  /** With the codes of RFC 2132: what the fold gives is, field by field, the last option of
      each kind. */
  lemma {:induction false} FoldFields(o: Options, opts: seq<Opt>, now: Timespec)
    requires forall i | 0 <= i < |opts| :: opts[i].WellFormed()
    ensures var r := Fold(o, opts, now);
            && [r.mtype] == Field(opts, 53, [o.mtype])
            && r.server == Field(opts, 54, o.server)
            && r.subnet == Field(opts, 1, o.subnet)
            && r.gateway == Field(opts, 3, o.gateway)
            && r.lenError == o.lenError
    decreases |opts|
  {
    hide LeaseT1, LeaseT2, Get32;
    if opts != [] {
      var opt := opts[0];
      assert opt.Opt? && opt.code == OPT_DHCP_MESSAGE_TYPE ==> [opt.data[0]] == opt.data;
      FoldFields(Meaning(o, opts[0], now), opts[1..], now);
    }
  }

  /** Of a list of DNS servers it is the first. */
  lemma {:induction false} FoldDns(o: Options, opts: seq<Opt>, now: Timespec, dns: seq<Byte>)
    requires forall i | 0 <= i < |opts| :: opts[i].WellFormed()
    requires |dns| >= 4 && o.dns == dns[..4]
    ensures var servers := Field(opts, 6, dns); |servers| >= 4 && Fold(o, opts, now).dns == servers[..4]
    decreases |opts|
  {
    hide LeaseT1, LeaseT2, Get32;
    if opts != [] {
      FoldDns(Meaning(o, opts[0], now), opts[1..], now,
              if opts[0].Opt? && opts[0].code == OPT_DOMAIN_NAME_SERVER then opts[0].data else dns);
    }
  }

  /** So it is with the lease: option 51 gives both times, and without one they are not set. */
  lemma {:induction false} FoldLease(o: Options, opts: seq<Opt>, now: Timespec, lease: seq<Byte>)
    requires forall i | 0 <= i < |opts| :: opts[i].WellFormed()
    requires if |lease| == 4 then o.t1 == LeaseT1(now, Get32(lease)) && o.t2 == LeaseT2(now, Get32(lease))
             else lease == [] && o.t1 == o.t2 == ZERO
    ensures var r, l := Fold(o, opts, now), Field(opts, 51, lease);
            if |l| == 4 then r.t1 == LeaseT1(now, Get32(l)) && r.t2 == LeaseT2(now, Get32(l))
            else l == [] && r.t1 == r.t2 == ZERO
    decreases |opts|
  {
    hide LeaseT1, LeaseT2, Get32;
    if opts != [] {
      var l := if opts[0].Opt? && opts[0].code == OPT_IP_ADDRESS_LEASE_TIME then opts[0].data else lease;
      FoldLease(Meaning(o, opts[0], now), opts[1..], now, l);
    }
  }

  /** One option in the message is parsed to its meaning. */
  lemma ParseOne(mem: seq<Byte>, p: nat, end: nat, now: Timespec, o: Options, opt: Opt)
    requires end + 5 <= |mem| && opt.Ok() && p + |opt.Bytes()| < end && mem[p..p + |opt.Bytes()|] == opt.Bytes()
    ensures Parse(mem, p, end, now, o) ==
            Parse(mem, p + |opt.Bytes()|, end, now,
                  if opt.Pad? then o
                  else Apply(o, opt.code, |opt.data|, mem[p + 2], mem[p + 2..p + 6], now))
    ensures opt.WellFormed() && opt.Opt? ==>
            Apply(o, opt.code, |opt.data|, mem[p + 2], mem[p + 2..p + 6], now) == Meaning(o, opt, now)
  {
    var b := opt.Bytes();
    assert mem[p] == mem[p..p + |b|][0];
    if opt.Opt? {
      assert mem[p + 1] == mem[p..p + |b|][1];
      assert mem[p + 2..p + 2 + |opt.data|] == mem[p..p + |b|][2..] == opt.data;
      if |opt.data| >= 1 {
        assert mem[p + 2] == mem[p + 2..p + 2 + |opt.data|][0];
      }
      if |opt.data| >= 4 {
        assert mem[p + 2..p + 6] == mem[p + 2..p + 2 + |opt.data|][..4];
      }
    }
  }

  /** For well-formed options, with pad bytes among them or not, the parser is that fold. */
  lemma {:induction false} ParseIsFold(mem: seq<Byte>, p: nat, end: nat, now: Timespec, o: Options, opts: seq<Opt>)
    requires end + 5 <= |mem| && AllOk(opts) && At(mem, p, end, opts)
    requires forall i | 0 <= i < |opts| :: opts[i].WellFormed()
    ensures Parse(mem, p, end, now, o) == Fold(o, opts, now)
    decreases |opts|
  {
    if opts != [] {
      ParseOne(mem, p, end, now, o, opts[0]);
      ParseIsFold(mem, p + |opts[0].Bytes()|, end, now, Meaning(o, opts[0], now), opts[1..]);
    }
  }

  /** The parser reports an error exactly when some option that it reads has a wrong length. */
  lemma {:induction false} LenErrorExactly(mem: seq<Byte>, p: nat, end: nat, now: Timespec, o: Options, opts: seq<Opt>)
    requires end + 5 <= |mem| && AllOk(opts) && At(mem, p, end, opts)
    ensures Parse(mem, p, end, now, o).lenError <==> o.lenError || exists i :: 0 <= i < |opts| && !opts[i].LenOk()
    decreases |opts|
  {
    hide Apply, Opt.LenOk, Opt.WellFormed, Opt.Bytes;
    if opts != [] {
      var opt := opts[0];
      ParseOne(mem, p, end, now, o, opt);
      var o' := if opt.Pad? then o else Apply(o, opt.code, |opt.data|, mem[p + 2], mem[p + 2..p + 6], now);
      ApplyLen(o, opt, mem[p + 2], mem[p + 2..p + 6], now);
      LenErrorExactly(mem, p + |opt.Bytes()|, end, now, o', opts[1..]);
      SomeBad(opts);
    }
  }

  lemma ApplyLen(o: Options, opt: Opt, first: Byte, quad: Quad, now: Timespec)
    requires opt.Ok()
    ensures opt.Pad? ==> opt.LenOk()
    ensures opt.Opt? ==> (Apply(o, opt.code, |opt.data|, first, quad, now).lenError <==> o.lenError || !opt.LenOk())
  {
  }

  lemma SomeBad(opts: seq<Opt>)
    requires opts != []
    ensures (exists i :: 0 <= i < |opts| && !opts[i].LenOk()) <==>
            !opts[0].LenOk() || exists i :: 0 <= i < |opts[1..]| && !opts[1..][i].LenOk()
  {
    if i :| 0 < i < |opts| && !opts[i].LenOk() {
      assert !opts[1..][i - 1].LenOk();
    }
    if i :| 0 <= i < |opts[1..]| && !opts[1..][i].LenOk() {
      assert !opts[i + 1].LenOk();
    }
  }
}
