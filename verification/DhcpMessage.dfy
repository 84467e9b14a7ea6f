/**
 DHCP messages (src/dhcp_client.c:44-171, 310-361, 430-490): the request, written field by
 field into a buffer with arbitrary contents, and the test of a reply's header.
 */
module DhcpMessage {
  import opened Bytes
  import opened Timespecs
  import opened DhcpOptions

  const MESSAGE_LEN: nat := 548
  const OFFSET_OPTIONS: nat := 236

  type Mac = m: seq<Byte> | |m| == 6 witness [0, 0, 0, 0, 0, 0]

  const MAGIC: Quad := [0x63, 0x82, 0x53, 0x63]

  const DHCPDISCOVER: Byte := 1
  const DHCPOFFER: Byte := 2
  const DHCPREQUEST: Byte := 3
  const DHCPACK: Byte := 5
  const DHCPNAK: Byte := 6

  function Zeros(n: nat): (r: seq<Byte>)
    ensures |r| == n
  {
    seq(n, _ => 0)
  }

  // ---- the request ----

  /** BOOTREQUEST, Ethernet, 6-byte addresses, the broadcast flag, and zeros up to the magic. */
  function Header(xid: Quad, ciaddr: Quad, mac: Mac): (r: seq<Byte>)
    ensures |r| == 240
  {
    [1, 1, 6, 0] + xid + [0, 0] + [0x80, 0] + ciaddr + ZERO_QUAD + ZERO_QUAD + ZERO_QUAD + mac + Zeros(202) + MAGIC
  }

  /** The options of a request; only one sent in state SELECTING names server and address. */
  function RequestOptions(mtype: Byte, selecting: bool, server: Quad, client: Quad): (r: seq<Opt>)
    ensures AllOk(r)
  {
    [Opt(OPT_DHCP_MESSAGE_TYPE, [mtype]),
     Opt(OPT_PARAMETER_REQUEST_LIST, [OPT_ROUTER, OPT_SUBNET, OPT_DOMAIN_NAME_SERVER]),
     Opt(OPT_IP_ADDRESS_LEASE_TIME, [0xFF, 0xFF, 0xFF, 0xFF])]
    + if selecting then [Opt(OPT_SERVER_IDENTIFIER, server), Opt(OPT_REQUESTED_IP_ADDRESS, client)] else []
  }

  function Encode(opts: seq<Opt>): (r: seq<Byte>)
    requires AllOk(opts)
    ensures r != []
  {
    if opts == [] then [OPT_END] else opts[0].Bytes() + Encode(opts[1..])
  }

  /** Everything outside data is as before. */
  twostate predicate OnlyWrote(a: array<Byte>, off: nat, n: nat)
    requires off + n <= a.Length
    reads a
  {
    forall lo, hi {:trigger a[lo..hi]} | 0 <= lo <= hi <= a.Length && (hi <= off || off + n <= lo) :: a[lo..hi] == old(a[lo..hi])
  }

  /** memcpy into the message. */
  method Copy(a: array<Byte>, off: nat, data: seq<Byte>)
    requires off + |data| <= a.Length
    modifies a
    ensures a[off..off + |data|] == data
    ensures OnlyWrote(a, off, |data|)
  {
    for i := 0 to |data|
      invariant a[off..off + i] == data[..i]
      invariant OnlyWrote(a, off, |data|)
    {
      a[off + i] := data[i];
    }
  }

  /** The header fields, in the order in which send_bootp_request and fill_bootp_request write
      them: no write disturbs another, and none of the 240 bytes is left out. */
  method PutHeader(a: array<Byte>, xid: Quad, ciaddr: Quad, mac: Mac)
    requires a.Length == MESSAGE_LEN
    modifies a
    ensures a[..240] == Header(xid, ciaddr, mac)
  {
    Copy(a, 4, xid);
    Copy(a, 12, ciaddr);
    Copy(a, 28, mac);
    Copy(a, 0, [1, 1, 6, 0]); // OP, HTYPE, HLEN, HOPS
    Copy(a, 8, [0, 0]); // SECS
    Copy(a, 10, [0x80, 0]); // FLAGS
    Copy(a, 16, ZERO_QUAD); // YIADDR
    Copy(a, 20, ZERO_QUAD); // SIADDR
    Copy(a, 24, ZERO_QUAD); // GIADDR
    Copy(a, 34, Zeros(202)); // the rest of CHADDR, SNAME, FILE
    Copy(a, 236, MAGIC);
    Pieces(a[..]);
    assert a[..][0..4] == a[0..4] && a[..][4..8] == a[4..8] && a[..][8..10] == a[8..10] && a[..][10..12] == a[10..12];
    assert a[..][12..16] == a[12..16] && a[..][16..20] == a[16..20] && a[..][20..24] == a[20..24] && a[..][24..28] == a[24..28];
    assert a[..][28..34] == a[28..34] && a[..][34..236] == a[34..236] && a[..][236..240] == a[236..240];
    assert a[..240] == a[..][..240];
  }

  lemma Pieces(s: seq<Byte>)
    requires |s| == MESSAGE_LEN
    ensures s[..240] == s[0..4] + s[4..8] + s[8..10] + s[10..12] + s[12..16] + s[16..20] + s[20..24] + s[24..28]
                        + s[28..34] + s[34..236] + s[236..240]
  {
  }

  /** The option pointer moves on over the bytes written. */
  method Append(a: array<Byte>, p: nat, data: seq<Byte>) returns (next: nat)
    requires p + |data| <= a.Length
    modifies a
    ensures next == p + |data| && a[..next] == old(a[..p]) + data
  {
    Copy(a, p, data);
    next := p + |data|;
    assert a[..next] == a[0..p] + a[p..next];
    assert a[0..p] == old(a[0..p]) == old(a[..p]);
  }

  /** One option: code, length and data. rest is what is still to be written of e. */
  method PutOption(a: array<Byte>, p: nat, opt: Opt, ghost rest: seq<Opt>, ghost e: seq<Byte>) returns (next: nat)
    requires opt.Ok() && p + |opt.Bytes()| <= a.Length
    requires AllOk(rest) && rest != [] && rest[0] == opt && a[..p] + Encode(rest) == e
    modifies a
    ensures next == p + |opt.Bytes()| && a[..next] + Encode(rest[1..]) == e
  {
    hide Opt.Bytes, Encode;
    EncodeFirst(rest);
    Joined(a[..p], opt.Bytes(), Encode(rest[1..]));
    next := Append(a, p, opt.Bytes());
  }

  lemma EncodeFirst(opts: seq<Opt>)
    requires AllOk(opts) && opts != []
    ensures Encode(opts) == opts[0].Bytes() + Encode(opts[1..])
  {
  }

  lemma Joined(a: seq<Byte>, b: seq<Byte>, c: seq<Byte>)
    ensures a + b + c == a + (b + c)
  {
  }

  /** The whole message: header, options, end marker and padding. */
  function Request(xid: Quad, ciaddr: Quad, mac: Mac, opts: seq<Opt>): seq<Byte>
    requires AllOk(opts)
  {
    var h := Header(xid, ciaddr, mac) + Encode(opts);
    if |h| <= MESSAGE_LEN then h + Zeros(MESSAGE_LEN - |h|) else h
  }

  /**
   send_bootp_request, up to the send: every byte of the message is defined, whatever the
   buffer held before.
   */
  method BuildRequest(a: array<Byte>, xid: Quad, ciaddr: Quad, mac: Mac, mtype: Byte, selecting: bool, server: Quad, client: Quad)
    requires a.Length == MESSAGE_LEN
    modifies a
    ensures a[..] == Request(xid, ciaddr, mac, RequestOptions(mtype, selecting, server, client))
  {
    hide Header, Encode;
    ghost var opts := RequestOptions(mtype, selecting, server, client);
    PutHeader(a, xid, ciaddr, mac);
    ghost var e := a[..240] + Encode(opts);
    var p := PutOption(a, 240, Opt(OPT_DHCP_MESSAGE_TYPE, [mtype]), opts, e);
    p := PutOption(a, p, Opt(OPT_PARAMETER_REQUEST_LIST, [OPT_ROUTER, OPT_SUBNET, OPT_DOMAIN_NAME_SERVER]), opts[1..], e);
    assert opts[1..][1..] == opts[2..];
    p := PutOption(a, p, Opt(OPT_IP_ADDRESS_LEASE_TIME, [0xFF, 0xFF, 0xFF, 0xFF]), opts[2..], e);
    assert opts[2..][1..] == opts[3..];
    if selecting {
      p := PutOption(a, p, Opt(OPT_SERVER_IDENTIFIER, server), opts[3..], e);
      assert opts[3..][1..] == opts[4..];
      p := PutOption(a, p, Opt(OPT_REQUESTED_IP_ADDRESS, client), opts[4..], e);
      assert opts[4..][1..] == [];
    } else {
      assert opts[3..] == [];
    }
    Finish(a, p, e);
  }

  /** The end marker, and zeros up to the end of the buffer. */
  method Finish(a: array<Byte>, p: nat, ghost e: seq<Byte>)
    requires p < a.Length == MESSAGE_LEN && a[..p] + Encode([]) == e
    modifies a
    ensures a[..] == e + Zeros(MESSAGE_LEN - |e|)
  {
    var next := Append(a, p, [OPT_END]);
    assert a[..next] == e;
    next := Append(a, next, Zeros(MESSAGE_LEN - next));
    assert a[..] == a[..next];
  }

  // ---- reading the request back ----

  lemma {:induction false} EncodeAt(mem: seq<Byte>, p: nat, end: nat, opts: seq<Opt>)
    requires AllOk(opts) && p + |Encode(opts)| <= end <= |mem| && mem[p..p + |Encode(opts)|] == Encode(opts)
    ensures At(mem, p, end, opts)
    decreases |opts|
  {
    hide Opt.Bytes, Encode, At;
    if opts == [] {
      AtNone(mem, p, end);
    } else {
      EncodeFirst(opts);
      var b, r := opts[0].Bytes(), Encode(opts[1..]);
      assert |Encode(opts)| == |b| + |r|;
      Halves(mem, p, b, r);
      EncodeAt(mem, p + |b|, end, opts[1..]);
      AtFirst(mem, p, end, opts);
    }
  }

  lemma AtNone(mem: seq<Byte>, p: nat, end: nat)
    requires p + |Encode([])| <= end <= |mem| && mem[p..p + |Encode([])|] == Encode([])
    ensures At(mem, p, end, [])
  {
    EncodeNone();
    assert mem[p] == mem[p..p + 1][0];
  }

  lemma AtFirst(mem: seq<Byte>, p: nat, end: nat, opts: seq<Opt>)
    requires AllOk(opts) && opts != []
    requires var b := opts[0].Bytes();
             p + |b| < end <= |mem| && mem[p..p + |b|] == b && At(mem, p + |b|, end, opts[1..])
    ensures At(mem, p, end, opts)
  {
  }

  /** The longest request, one of state SELECTING, takes 267 of the 548 bytes. */
  lemma EncodedLength(mtype: Byte, selecting: bool, server: Quad, client: Quad)
    ensures |Encode(RequestOptions(mtype, selecting, server, client))| == if selecting then 27 else 15
  {
    hide Encode;
    var opts := RequestOptions(mtype, selecting, server, client);
    EncodeFirst(opts);
    EncodeFirst(opts[1..]);
    EncodeFirst(opts[2..]);
    assert opts[1..][1..] == opts[2..] && opts[2..][1..] == opts[3..];
    if selecting {
      EncodeFirst(opts[3..]);
      EncodeFirst(opts[4..]);
      assert opts[3..][1..] == opts[4..] && opts[4..][1..] == [];
    } else {
      assert opts[3..] == [];
    }
    EncodeNone();
  }

  /** The pad and end options of RFC 2132. */
  lemma EncodeNone()
    ensures Encode([]) == [255] == [OPT_END] && Pad.Bytes() == [0]
  {
  }

  /** The message holds exactly these options. Read by the client's own parser, they say what was
      put in them: the type, a lease that never ends and, from state SELECTING, the server chosen.
      No length is wrong. */
  lemma RequestReadsBack(mem: seq<Byte>, now: Timespec, xid: Quad, ciaddr: Quad, mac: Mac,
                         mtype: Byte, selecting: bool, server: Quad, client: Quad)
    requires |mem| >= MESSAGE_LEN + 5
    requires mem[..MESSAGE_LEN] == Request(xid, ciaddr, mac, RequestOptions(mtype, selecting, server, client))
    ensures At(mem, 240, MESSAGE_LEN, RequestOptions(mtype, selecting, server, client))
    ensures Parse(mem, 240, MESSAGE_LEN, now, BLANK) ==
            BLANK.(mtype := mtype, server := if selecting then server else ZERO_QUAD, t1 := INFINITY, t2 := INFINITY)
  {
    hide Header, Encode, Parse, At, Fold;
    var opts := RequestOptions(mtype, selecting, server, client);
    EncodedLength(mtype, selecting, server, client);
    var h, e := Header(xid, ciaddr, mac), Encode(opts);
    InTheMiddle(mem, h, e, Zeros(MESSAGE_LEN - |h + e|));
    EncodeAt(mem, 240, MESSAGE_LEN, opts);
    ParseIsFold(mem, 240, MESSAGE_LEN, now, BLANK, opts);
    FoldRequest(now, mtype, selecting, server, client);
  }

  lemma FoldRequest(now: Timespec, mtype: Byte, selecting: bool, server: Quad, client: Quad)
    ensures Fold(BLANK, RequestOptions(mtype, selecting, server, client), now) ==
            BLANK.(mtype := mtype, server := if selecting then server else ZERO_QUAD, t1 := INFINITY, t2 := INFINITY)
  {
    var opts := RequestOptions(mtype, selecting, server, client);
    assert opts[1..][1..] == opts[2..] && opts[2..][1..] == opts[3..];
    var o1 := Meaning(BLANK, opts[0], now);
    var o3 := Meaning(Meaning(o1, opts[1], now), opts[2], now);
    assert Fold(BLANK, opts, now) == Fold(o1, opts[1..], now) == Fold(o1, opts[2..], now) == Fold(o3, opts[3..], now);
    assert o3 == BLANK.(mtype := mtype, t1 := INFINITY, t2 := INFINITY);
    if selecting {
      assert opts[3..][1..] == opts[4..] && opts[4..][1..] == [];
      var o4 := Meaning(o3, opts[3], now);
      assert Fold(o3, opts[3..], now) == Fold(o4, opts[4..], now) == Fold(o4, [], now);
    }
  }

  lemma InTheMiddle(mem: seq<Byte>, a: seq<Byte>, b: seq<Byte>, c: seq<Byte>)
    requires |a| + |b| + |c| <= |mem| && mem[..|a| + |b| + |c|] == a + b + c
    ensures mem[..|a|] == a && mem[|a|..|a| + |b|] == b
  {
    var m := mem[..|a| + |b| + |c|];
    assert mem[..|a|] == m[..|a|];
    assert mem[|a|..|a| + |b|] == m[|a|..|a| + |b|];
  }

  // ---- the header of a reply ----

  /** bootp_check_reply: the offset of the first field that does not match, or of the options. */
  function CheckReply(mem: seq<Byte>, mac: Mac, xid: Quad): (r: nat)
    requires |mem| >= MESSAGE_LEN
    ensures r in {0, 1, 2, 4, 28, 236, 240}
    ensures r != 0 <==> mem[0] == 2
    ensures r > 1 ==> mem[1] == 1
    ensures r > 2 <==> mem[..3] == [2, 1, 6]
    ensures r > 4 <==> mem[..3] == [2, 1, 6] && mem[4..8] == xid
    ensures r > 28 <==> mem[..3] == [2, 1, 6] && mem[4..8] == xid && mem[28..34] == mac
    ensures r > OFFSET_OPTIONS <==>
            mem[..3] == [2, 1, 6] && mem[4..8] == xid && mem[28..34] == mac && mem[236..240] == MAGIC
  {
    if mem[0] != 2 then 0
    else if mem[1] != 1 then 1
    else if mem[2] != 6 then 2
    else if mem[4..8] != xid then 4
    else if mem[28..34] != mac then 28
    else if mem[236..240] != MAGIC then OFFSET_OPTIONS
    else 240
  }

  /** A reply as figure 1 of RFC 2131 has it, up to the options: names are the rest of CHADDR,
      SNAME and FILE. */
  datatype Fields = Fields(hops: Byte, xid: Quad, secsAndFlags: Quad, ciaddr: Quad, yiaddr: Quad, siaddr: Quad,
                           giaddr: Quad, mac: Mac, names: seq<Byte>)
  {
    predicate Ok() {
      |names| == 202
    }

    function Bytes(): (r: seq<Byte>)
      requires Ok()
      ensures |r| == 240
    {
      [2, 1, 6, hops] + xid + secsAndFlags + ciaddr + yiaddr + siaddr + giaddr + mac + names + [99, 130, 83, 99]
    }
  }

  /** Every such reply passes, for the client and transaction that it names and for no other. */
  lemma ReplyPasses(mem: seq<Byte>, f: Fields, mac: Mac, xid: Quad)
    requires f.Ok() && |mem| >= MESSAGE_LEN && mem[..240] == f.Bytes()
    ensures CheckReply(mem, mac, xid) > OFFSET_OPTIONS <==> mac == f.mac && xid == f.xid
    ensures mem[16..20] == f.yiaddr
  {
    var h := f.Bytes();
    assert h[4..8] == f.xid && h[16..20] == f.yiaddr && h[28..34] == f.mac && h[236..240] == MAGIC;
    assert mem[4..8] == mem[..240][4..8] && mem[16..20] == mem[..240][16..20];
    assert mem[28..34] == mem[..240][28..34] && mem[236..240] == mem[..240][236..240];
    assert mem[0] == mem[..240][0] && mem[1] == mem[..240][1] && mem[2] == mem[..240][2];
  }

  /** A request of the client with nothing but its first byte changed to BOOTREPLY is taken as
      a reply to it, and by no other client and in no other transaction. */
  lemma RequestEchoed(mem: seq<Byte>, xid: Quad, ciaddr: Quad, mac: Mac, opts: seq<Opt>, mac': Mac, xid': Quad)
    requires AllOk(opts) && |Header(xid, ciaddr, mac) + Encode(opts)| <= MESSAGE_LEN <= |mem|
    requires mem[..MESSAGE_LEN] == Request(xid, ciaddr, mac, opts)[0 := 2]
    ensures CheckReply(mem, mac', xid') > OFFSET_OPTIONS <==> mac' == mac && xid' == xid
  {
    hide Encode;
    var h := Header(xid, ciaddr, mac);
    var r := Request(xid, ciaddr, mac, opts);
    var m := mem[..MESSAGE_LEN];
    assert m[4..8] == r[4..8] == h[4..8] == xid;
    assert m[28..34] == r[28..34] == h[28..34] == mac;
    assert m[236..240] == r[236..240] == h[236..240] == MAGIC;
    assert mem[4..8] == m[4..8] && mem[28..34] == m[28..34] && mem[236..240] == m[236..240];
    assert mem[0] == m[0] && mem[1] == m[1] && mem[2] == m[2];
  }

  /** The fields of a request, by the offsets of RFC 2131. */
  lemma HeaderFields(xid: Quad, ciaddr: Quad, mac: Mac)
    ensures var h := Header(xid, ciaddr, mac);
            && h[..4] == [1, 1, 6, 0] && h[4..8] == xid && h[8..12] == [0, 0, 0x80, 0] && h[12..16] == ciaddr
            && h[16..28] == Zeros(12) && h[28..34] == mac && h[34..236] == Zeros(202) && h[236..] == [99, 130, 83, 99]
  {
  }

  /** The whole message is header, options and zeros, 548 bytes of them. */
  lemma RequestBytes(xid: Quad, ciaddr: Quad, mac: Mac, mtype: Byte, selecting: bool, server: Quad, client: Quad)
    ensures var opts := RequestOptions(mtype, selecting, server, client);
            var r := Request(xid, ciaddr, mac, opts);
            |r| == MESSAGE_LEN && r[..240] == Header(xid, ciaddr, mac) && At(r, 240, MESSAGE_LEN, opts)
  {
    hide Header, Encode, At;
    var opts := RequestOptions(mtype, selecting, server, client);
    EncodedLength(mtype, selecting, server, client);
    var h, e := Header(xid, ciaddr, mac), Encode(opts);
    var r := Request(xid, ciaddr, mac, opts);
    assert r[..MESSAGE_LEN] == r;
    InTheMiddle(r, h, e, Zeros(MESSAGE_LEN - |h + e|));
    EncodeAt(r, 240, MESSAGE_LEN, opts);
  }
}
