/**
 DNS queries and responses (src/getaddrinfo.c:334-536): the query for a name, and the walk
 over the answers that builds the list of addresses.
 */
module DnsMessage {
  import opened Bytes
  import opened DnsName

  // ---- the query ----

  function Header(id: nat): seq<Byte>
    requires id < 0x1_0000
  {
    Put16(id) + [1, 0] + Put16(1) + Put16(0) + Put16(0) + Put16(0)
  }

  /** One question, of type A and class IN. */
  ghost function Query(id: nat, name: seq<Byte>): seq<Byte>
    requires id < 0x1_0000
  {
    Header(id) + Encode(name) + Put16(1) + Put16(1)
  }

  /** dns_query_append16. */
  method Append16(q: array<Byte>, pq: nat, v: nat) returns (next: nat)
    requires pq + 2 <= q.Length && v < 0x1_0000
    modifies q
    ensures next == pq + 2
    ensures q[..next] == old(q[..pq]) + Put16(v)
  {
    q[pq] := v / 256;
    q[pq + 1] := v % 256;
    next := pq + 2;
  }

  /** One label of the QNAME: the bytes up to a dot or the end, and before them, written last,
      how many there are. */
  method PutLabel(q: array<Byte>, base: nat, at: nat, name: seq<Byte>, start: nat, ghost rest: seq<Byte>)
      returns (pq: nat, pname: nat)
    requires start < |name| && rest == name[start..] && base <= at && at + 1 + |name| - start <= q.Length
    modifies q
    ensures start <= pname <= |name| && pq == at + 1 + (pname - start)
    ensures EndsLabel(rest, pname - start)
    ensures AfterLabel(rest, pname - start) == name[if pname < |name| then pname + 1 else pname..]
    ensures q[..base] == old(q[..base])
    ensures q[base..pq] == old(q[base..at]) + LabelBytes(rest[..pname - start])
  {
    hide LabelBytes, EndsLabel;
    ghost var q0 := q[..];
    pq, pname := CopyLabel(q, at, name, start, rest);
    q[at] := (pq - at - 1) % 256;
    LabelWritten(q0, q[..], base, at, rest[..pname - start]);
    assert q[..][base..pq] == q[base..pq] && q0[base..at] == old(q[base..at]);
  }

  /** The bytes of the label, behind the place for its length. */
  method CopyLabel(q: array<Byte>, at: nat, name: seq<Byte>, start: nat, ghost rest: seq<Byte>)
      returns (pq: nat, pname: nat)
    requires start < |name| && rest == name[start..] && at + 1 + |name| - start <= q.Length
    modifies q
    ensures start <= pname <= |name| && pq == at + 1 + (pname - start)
    ensures EndsLabel(rest, pname - start)
    ensures q[..at] == old(q[..at]) && q[at + 1..pq] == rest[..pname - start]
  {
    pq, pname := at + 1, start;
    while pname < |name| && name[pname] != DOT
      invariant start <= pname <= |name| && pq == at + 1 + (pname - start)
      invariant DOT !in rest[..pname - start]
      invariant q[..at] == old(q[..at])
      invariant q[at + 1..pq] == rest[..pname - start]
    {
      q[pq] := name[pname];
      pq, pname := pq + 1, pname + 1;
    }
  }

  lemma LabelWritten(q0: seq<Byte>, q: seq<Byte>, base: nat, at: nat, l: seq<Byte>)
    requires base <= at && at + 1 + |l| <= |q| == |q0| && q[..at] == q0[..at]
    requires q[at] == |l| % 256 && q[at + 1..at + 1 + |l|] == l
    ensures q[..base] == q0[..base]
    ensures q[base..at + 1 + |l|] == q0[base..at] + LabelBytes(l)
  {
    assert q[..base] == q[..at][..base] && q0[..base] == q0[..at][..base];
    assert q[base..at] == q[..at][base..] && q0[base..at] == q0[..at][base..];
    assert q[base..at + 1 + |l|] == q[base..at] + [q[at]] + q[at + 1..at + 1 + |l|];
  }

  /** The QNAME loop of send_dns_query. */
  method PutName(q: array<Byte>, at: nat, name: seq<Byte>) returns (pq: nat)
    requires at + |Encode(name)| <= q.Length
    modifies q
    ensures pq == at + |Encode(name)|
    ensures q[..at] == old(q[..at]) && q[at..pq] == Encode(name)
  {
    EncodeSize(name);
    pq := PutLabels(q, at, name);
    ghost var done := q[at..pq];
    assert Encode([]) == [0];
    q[pq] := 0;
    pq := pq + 1;
    assert q[at..pq] == done + [0];
  }

  method PutLabels(q: array<Byte>, at: nat, name: seq<Byte>) returns (pq: nat)
    requires at + |name| + 1 <= q.Length
    modifies q
    ensures at <= pq <= at + |name| + 1
    ensures q[..at] == old(q[..at]) && Remains(q[at..pq], [], Encode(name))
  {
    hide Encode, EndsLabel, LabelBytes;
    pq := at;
    var pname := 0;
    ghost var rest, done: seq<Byte>, e := name, [], Encode(name);
    while pname < |name|
      invariant pname <= |name| && at <= pq <= at + pname + 1
      invariant pname < |name| ==> pq == at + pname
      invariant q[..at] == old(q[..at]) && q[at..pq] == done
      invariant rest == name[pname..]
      invariant Remains(done, rest, e)
    {
      var start := pname;
      pq, pname := PutLabel(q, at, pq, name, pname, rest);
      ghost var k := pname - start;
      Advance(done, rest, k, e);
      done, rest := done + LabelBytes(rest[..k]), AfterLabel(rest, k);
      if pname < |name| {
        pname := pname + 1;
      }
    }
  }

  /** With done written, the encoding of rest is what is missing from e. */
  ghost predicate Remains(done: seq<Byte>, rest: seq<Byte>, e: seq<Byte>) {
    done + Encode(rest) == e
  }

  lemma Advance(done: seq<Byte>, rest: seq<Byte>, k: nat, e: seq<Byte>)
    requires Remains(done, rest, e) && rest != [] && EndsLabel(rest, k)
    ensures Remains(done + LabelBytes(rest[..k]), AfterLabel(rest, k), e)
  {
    EncodeFirst(rest, k);
    assert done + LabelBytes(rest[..k]) + Encode(AfterLabel(rest, k)) == done + Encode(rest);
  }

  ghost function AfterLabel(name: seq<Byte>, k: nat): seq<Byte>
    requires k <= |name|
  {
    if k < |name| then name[k + 1..] else []
  }

  /** The encoding of a name is that of its first label and then that of the rest. */
  lemma EncodeFirst(name: seq<Byte>, k: nat)
    requires name != [] && EndsLabel(name, k)
    ensures Encode(name) == LabelBytes(name[..k]) + Encode(AfterLabel(name, k))
  {
    LabelUnique(name, k, FirstLabel(name));
    assert SplitName(name)[1..] == SplitName(Rest(name));
  }

  /** send_dns_query, up to the send: the bytes that are sent. */
  method BuildQuery(id: nat, name: seq<Byte>) returns (sent: seq<Byte>)
    requires id < 0x1_0000 && |Query(id, name)| <= 512 // it fits the buffer
    ensures sent == Query(id, name)
  {
    var q := new Byte[512](_ => 0);
    PutHeader(q, id);
    var pq := PutQuestion(q, 12, name);
    sent := q[..pq];
  }

  /** The names for which the query fits: the code does not check. */
  lemma QueryFitsExactly(id: nat, name: seq<Byte>)
    requires id < 0x1_0000
    ensures |Query(id, name)| <= 512 <==> |name| <= 494 || (|name| == 495 && name[494] == DOT)
  {
    EncodeSize(name);
  }

  method PutQuestion(q: array<Byte>, at: nat, name: seq<Byte>) returns (pq: nat)
    requires at + |Encode(name)| + 4 <= q.Length
    modifies q
    ensures at <= pq <= q.Length && q[..pq] == old(q[..at]) + Encode(name) + Put16(1) + Put16(1)
  {
    pq := PutName(q, at, name);
    assert q[..pq] == q[..at] + q[at..pq];
    pq := Append16(q, pq, 1);
    pq := Append16(q, pq, 1);
  }

  method PutHeader(q: array<Byte>, id: nat)
    requires id < 0x1_0000 && q.Length == 512
    modifies q
    ensures q[..12] == Header(id)
  {
    var pq := Append16(q, 0, id);
    ghost var h := q[..2];
    q[2], q[3] := 1, 0;
    assert q[..4] == h + [1, 0];
    pq := Append16(q, 4, 1);
    pq := Append16(q, 6, 0);
    pq := Append16(q, 8, 0);
    pq := Append16(q, 10, 0);
  }

  // ---- questions ----

  /** n questions from pos on lie within the message. */
  predicate QuestionsOk(msg: seq<Byte>, n: nat, pos: nat) {
    n == 0 || (InBounds(msg, pos) && QuestionsOk(msg, n - 1, AfterName(msg, pos) + 4))
  }

  function AfterQuestions(msg: seq<Byte>, n: nat, pos: nat): nat
    requires QuestionsOk(msg, n, pos)
  {
    if n == 0 then pos else AfterQuestions(msg, n - 1, AfterName(msg, pos) + 4)
  }

  /** skip_questions. It never reports a malformed message. */
  method SkipQuestions(msg: seq<Byte>) returns (presp: nat)
    requires |msg| >= 12 && QuestionsOk(msg, Get16(msg[4], msg[5]), 12)
    ensures presp == AfterQuestions(msg, Get16(msg[4], msg[5]), 12)
  {
    var qdcount := Get16(msg[4], msg[5]);
    presp := 12;
    for i := 0 to qdcount
      invariant QuestionsOk(msg, qdcount - i, presp)
      invariant AfterQuestions(msg, qdcount, 12) == AfterQuestions(msg, qdcount - i, presp)
    {
      presp := SkipLabels(msg, presp);
      presp := presp + 4;
    }
  }

  /** The query for a valid name can be read back: the name is the one asked for, and skipping
      the question leads exactly to the end. */
  lemma QueryReadsBack(id: nat, name: seq<Byte>)
    requires id < 0x1_0000 && ValidName(name)
    ensures var q := Query(id, name);
            && NameOk(q, 12) && Name(q, 12) == name
            && Get16(q[4], q[5]) == 1 && QuestionsOk(q, 1, 12) && AfterQuestions(q, 1, 12) == |q|
  {
    var q := Query(id, name);
    assert q[12..12 + |Encode(name)|] == Encode(name);
    RoundTripExactly(q, 12, name);
    var next := AfterName(q, 12) + 4;
    assert QuestionsOk(q, 0, next) && AfterQuestions(q, 0, next) == next;
  }

  /** The fields of a query, byte by byte: its ID, recursion desired, one question and nothing
      else; and at the end type A and class IN. */
  lemma QueryFields(id: nat, name: seq<Byte>)
    requires id < 0x1_0000
    ensures var q := Query(id, name);
            && |q| == 16 + |Encode(name)|
            && q[..12] == [id / 256, id % 256, 1, 0, 0, 1, 0, 0, 0, 0, 0, 0] && q[|q| - 4..] == [0, 1, 0, 1]
  {
  }

  // ---- answers ----

  /** dns_response. */
  type Buffer = b: seq<Byte> | |b| == 512 witness seq(512, _ => 0)

  /** An address record: name and IPv4 address. */
  datatype Answer = Answer(name: seq<Byte>, addr: Quad)

  /** Where a name that can be decoded ends. */
  ghost function EndOfName(msg: seq<Byte>, pos: nat): (p: nat)
    requires NameOk(msg, pos)
    ensures InBounds(msg, pos) && p == AfterName(msg, pos)
  {
    NameInBounds(msg, pos);
    AfterName(msg, pos)
  }

  /** The name of the record at pos can be decoded, and the record lies within the message. */
  ghost predicate RecordOk(msg: seq<Byte>, pos: nat) {
    && NameOk(msg, pos)
    && var p := EndOfName(msg, pos);
       && p + 10 <= |msg| && p + 10 + Get16(msg[p + 8], msg[p + 9]) <= |msg|
       && (IsAddress(msg, p) ==> p + 14 <= |msg|)
  }

  /** Type A and class IN; p is where the name ends. */
  predicate IsAddress(msg: seq<Byte>, p: nat)
    requires p + 10 <= |msg|
  {
    Get16(msg[p], msg[p + 1]) == 1 && Get16(msg[p + 2], msg[p + 3]) == 1
  }

  ghost function AfterRecord(msg: seq<Byte>, pos: nat): nat
    requires RecordOk(msg, pos)
  {
    var p := EndOfName(msg, pos);
    p + 10 + Get16(msg[p + 8], msg[p + 9])
  }

  /** The records of the message from at[0] on start at these positions; the last one is
      where they end. */
  ghost predicate Records(msg: seq<Byte>, at: seq<nat>) {
    && at != []
    && forall i: nat {:trigger at[i]} | i + 1 < |at| :: RecordOk(msg, at[i]) && at[i + 1] == AfterRecord(msg, at[i])
  }

  /** The address records among the first n, in the order of the message. */
  ghost function Addresses(msg: seq<Byte>, at: seq<nat>, n: nat): seq<Answer>
    requires Records(msg, at) && n < |at|
  {
    if n == 0 then [] else Addresses(msg, at, n - 1) + AddressOf(msg, at[n - 1])
  }

  /** What one record adds to them. */
  ghost function AddressOf(msg: seq<Byte>, pos: nat): seq<Answer>
    requires RecordOk(msg, pos)
  {
    var p := EndOfName(msg, pos);
    if IsAddress(msg, p) then [Answer(Name(msg, pos), msg[p + 10..p + 14])] else []
  }

  /** A block from malloc that holds a name. */
  class CString {
    const text: seq<Byte>

    constructor (text: seq<Byte>)
      ensures this.text == text
    {
      this.text := text;
    }
  }

  class AddrInfo {
    const canonname: CString
    const addr: Quad
    var next: AddrInfo?

    constructor (canonname: CString, addr: Quad)
      ensures this.canonname == canonname && this.addr == addr && next == null
    {
      this.canonname, this.addr, next := canonname, addr, null;
    }

    ghost predicate Holds(a: Answer) {
      canonname.text == a.name + [0] && addr == a.addr
    }
  }

  /** The nodes hold the answers, and each owns its name alone. */
  ghost predicate Holding(nodes: seq<AddrInfo>, answers: seq<Answer>, owner: map<CString, AddrInfo>) {
    && |nodes| == |answers|
    && (forall i | 0 <= i < |nodes| :: nodes[i].Holds(answers[i]))
    && (forall i | 0 <= i < |nodes| :: nodes[i].canonname in owner && owner[nodes[i].canonname] == nodes[i])
    && (forall c | c in owner :: owner[c] in nodes && owner[c].canonname == c)
  }

  lemma HoldingOneMore(nodes: seq<AddrInfo>, answers: seq<Answer>, owner: map<CString, AddrInfo>, n: AddrInfo, a: Answer)
    requires Holding(nodes, answers, owner) && n.Holds(a) && n.canonname !in owner
    ensures Holding(nodes + [n], answers + [a], owner[n.canonname := n])
  {
    assert (nodes + [n])[|nodes|] == n;
  }

  /** The list from ai_head to ai_tail. */
  class List {
    var head: AddrInfo?
    var tail: AddrInfo?
    ghost var nodes: seq<AddrInfo>

    /** These are its nodes, in order. */
    ghost predicate Linked()
      reads this, nodes
    {
      && head == (if nodes == [] then null else nodes[0])
      && tail == (if nodes == [] then null else nodes[|nodes| - 1])
      && (forall i | 0 <= i < |nodes| - 1 :: nodes[i].next == nodes[i + 1])
      && (tail != null ==> tail.next == null)
      && (forall i, j | 0 <= i < j < |nodes| :: nodes[i] != nodes[j])
    }

    constructor ()
      ensures Linked() && nodes == [] && tail == null
    {
      head, tail, nodes := null, null, [];
    }

    /** Insertion at the tail. */
    method Append(ai: AddrInfo)
      requires Linked() && ai !in nodes && ai.next == null
      modifies this, if tail == null then {} else {tail}
      ensures Linked() && nodes == old(nodes) + [ai] && tail == ai
    {
      if head == null {
        head := ai;
      } else {
        tail.next := ai;
      }
      tail := ai;
      nodes := nodes + [ai];
    }
  }

  /**
   The answer loop of recv_dns_response: exactly the address records, in their order. live is
   the set of names allocated and not freed: in the end, exactly those that the nodes own.
   */
  method ReadAnswers(msg: Buffer, presp: nat, ancount: nat, ghost at: seq<nat>)
      returns (list: List, ghost owner: map<CString, AddrInfo>, ghost live: set<CString>)
    requires Records(msg, at) && |at| == ancount + 1 && at[0] == presp
    ensures fresh(list) && list.Linked()
    ensures Holding(list.nodes, Addresses(msg, at, ancount), owner)
    ensures owner.Keys == live
  {
    hide RecordOk, AfterRecord, AddressOf;
    list := new List();
    owner, live := map[], {};
    var pos: nat := presp;
    for i := 0 to ancount
      invariant pos == at[i]
      invariant list.Linked() && (list.tail == null || fresh(list.tail))
      invariant Holding(list.nodes, Addresses(msg, at, i), owner)
      invariant owner.Keys == live
    {
      pos, owner, live := ReadAnswer(list, msg, pos, Addresses(msg, at, i), owner, live);
    }
  }

  /** One turn of it: the name is kept with an address, and freed otherwise. */
  method ReadAnswer(list: List, msg: Buffer, pos: nat, ghost answers: seq<Answer>,
                    ghost owner0: map<CString, AddrInfo>, ghost live0: set<CString>)
      returns (next: nat, ghost owner: map<CString, AddrInfo>, ghost live: set<CString>)
    requires list.Linked() && Holding(list.nodes, answers, owner0) && owner0.Keys == live0 && RecordOk(msg, pos)
    modifies list, if list.tail == null then {} else {list.tail}
    ensures next == AfterRecord(msg, pos)
    ensures list.Linked() && Holding(list.nodes, answers + AddressOf(msg, pos), owner) && owner.Keys == live
    ensures list.tail == old(list.tail) || fresh(list.tail)
  {
    var name, isAddress, addr, next' := ReadRecord(msg, pos);
    next, owner, live := next', owner0, live0 + {name};
    if isAddress {
      var ai := new AddrInfo(name, addr);
      HoldingOneMore(list.nodes, answers, owner, ai, Answer(Name(msg, pos), addr));
      list.Append(ai);
      owner := owner[name := ai];
    } else {
      live := live - {name}; // free
      assert answers + AddressOf(msg, pos) == answers;
    }
  }

  /** One record: its name is copied, and the record stepped over by its RDLENGTH. */
  method ReadRecord(msg: Buffer, pos: nat) returns (name: CString, isAddress: bool, addr: Quad, next: nat)
    requires RecordOk(msg, pos)
    ensures fresh(name) && next == AfterRecord(msg, pos)
    ensures name.text == Name(msg, pos) + [0]
    ensures AddressOf(msg, pos) == if isAddress then [Answer(Name(msg, pos), addr)] else []
  {
    NameSize(msg, pos);
    NameInBounds(msg, pos);
    var size, text := NewName(msg, pos);
    name := new CString(text);
    var p := SkipLabels(msg, pos);
    isAddress, addr := IsAddress(msg, p), ZERO_QUAD;
    if isAddress {
      addr := msg[p + 10..p + 14];
    }
    next := p + 10 + Get16(msg[p + 8], msg[p + 9]);
  }

  // ---- reading answers back ----

  /** A resource record in the form of section 4.1.3 of RFC 1035. */
  datatype Resource = Resource(name: seq<Byte>, rtype: nat, class_: nat, ttl: Quad, data: seq<Byte>) {
    ghost predicate Ok() {
      ValidName(name) && rtype < 0x1_0000 && class_ < 0x1_0000 && |data| < 0x1_0000 && (IsIpv4() ==> |data| == 4)
    }

    predicate IsIpv4() {
      rtype == 1 && class_ == 1
    }

    /** Everything after the name. */
    function Tail(): (r: seq<Byte>)
      requires rtype < 0x1_0000 && class_ < 0x1_0000 && |data| < 0x1_0000
      ensures |r| == 10 + |data|
    {
      [rtype / 256, rtype % 256, class_ / 256, class_ % 256] + ttl + [|data| / 256, |data| % 256] + data
    }

    ghost function Bytes(): seq<Byte>
      requires Ok()
    {
      Encode(name) + Tail()
    }
  }

  ghost predicate ResourcesOk(rs: seq<Resource>) {
    forall i | 0 <= i < |rs| :: rs[i].Ok()
  }

  /** Where record i starts, when the records lie one after the other from pos on. */
  ghost function Place(pos: nat, rs: seq<Resource>, i: nat): nat
    requires ResourcesOk(rs) && i <= |rs|
  {
    if i == 0 then pos else Place(pos, rs, i - 1) + |rs[i - 1].Bytes()|
  }

  ghost predicate InPlace(msg: seq<Byte>, pos: nat, rs: seq<Resource>, i: nat)
    requires ResourcesOk(rs) && i < |rs|
  {
    var p := Place(pos, rs, i);
    p + |rs[i].Bytes()| <= |msg| && msg[p..p + |rs[i].Bytes()|] == rs[i].Bytes()
  }

  ghost predicate LaidOut(msg: seq<Byte>, pos: nat, rs: seq<Resource>)
    requires ResourcesOk(rs)
  {
    forall i: nat | i < |rs| :: InPlace(msg, pos, rs, i)
  }

  /** The records one after the other. */
  ghost function AllBytes(rs: seq<Resource>): seq<Byte>
    requires ResourcesOk(rs)
  {
    if rs == [] then [] else AllBytes(rs[..|rs| - 1]) + rs[|rs| - 1].Bytes()
  }

  /** That is how they are laid out. */
  lemma {:induction false} LaidOutInOrder(msg: seq<Byte>, pos: nat, rs: seq<Resource>)
    requires ResourcesOk(rs) && pos + |AllBytes(rs)| <= |msg| && msg[pos..pos + |AllBytes(rs)|] == AllBytes(rs)
    ensures LaidOut(msg, pos, rs) && Place(pos, rs, |rs|) == pos + |AllBytes(rs)|
  {
    if rs != [] {
      hide Resource.Bytes, LaidOut, Place;
      var n := |rs| - 1;
      var init := rs[..n];
      Halves(msg, pos, AllBytes(init), rs[n].Bytes());
      LaidOutInOrder(msg, pos, init);
      LaidOutLast(msg, pos, rs);
    }
  }

  lemma LaidOutLast(msg: seq<Byte>, pos: nat, rs: seq<Resource>)
    requires ResourcesOk(rs) && rs != [] && LaidOut(msg, pos, rs[..|rs| - 1])
    requires var n := |rs| - 1;
             var p := Place(pos, rs[..n], n);
             p + |rs[n].Bytes()| <= |msg| && msg[p..p + |rs[n].Bytes()|] == rs[n].Bytes()
    ensures LaidOut(msg, pos, rs) && Place(pos, rs, |rs|) == Place(pos, rs[..|rs| - 1], |rs| - 1) + |rs[|rs| - 1].Bytes()|
  {
    hide Resource.Bytes, Resource.Ok;
    var n := |rs| - 1;
    forall i: nat | i < |rs|
      ensures InPlace(msg, pos, rs, i)
    {
      SamePlace(pos, rs, n, if i < n then i else n);
      assert i < n ==> InPlace(msg, pos, rs[..n], i) && rs[..n][i] == rs[i];
    }
    SamePlace(pos, rs, n, n);
  }

  lemma {:induction false} SamePlace(pos: nat, rs: seq<Resource>, n: nat, i: nat)
    requires ResourcesOk(rs) && i <= n <= |rs|
    ensures Place(pos, rs, i) == Place(pos, rs[..n], i)
  {
    if i > 0 {
      SamePlace(pos, rs, n, i - 1);
    }
  }

  /** The addresses among them. */
  function Ipv4(rs: seq<Resource>): seq<Answer> {
    if rs == [] then []
    else
      var r := rs[|rs| - 1];
      Ipv4(rs[..|rs| - 1]) + if r.IsIpv4() then [Answer(r.name, OneAddress(r))] else []
  }

  /** A record laid out in the message is read as what it is. */
  lemma ResourceReadsBack(msg: seq<Byte>, pos: nat, r: Resource)
    requires r.Ok() && pos + |r.Bytes()| <= |msg| && msg[pos..pos + |r.Bytes()|] == r.Bytes()
    ensures RecordOk(msg, pos) && AfterRecord(msg, pos) == pos + |r.Bytes()|
    ensures AddressOf(msg, pos) == if r.IsIpv4() then [Answer(r.name, r.data)] else []
  {
    hide Encode, ValidName, NameOk, InBounds, AfterName, Name, Resource.Tail;
    var e, p := Encode(r.name), pos + |Encode(r.name)|;
    Halves(msg, pos, e, r.Tail());
    RoundTripExactly(msg, pos, r.name);
    TailReadsBack(msg, p, r);
  }

  lemma TailReadsBack(msg: seq<Byte>, p: nat, r: Resource)
    requires r.rtype < 0x1_0000 && r.class_ < 0x1_0000 && |r.data| < 0x1_0000 && (r.IsIpv4() ==> |r.data| == 4)
    requires p + |r.Tail()| <= |msg| && msg[p..p + |r.Tail()|] == r.Tail()
    ensures IsAddress(msg, p) <==> r.IsIpv4()
    ensures Get16(msg[p + 8], msg[p + 9]) == |r.data|
    ensures r.IsIpv4() ==> msg[p + 10..p + 14] == r.data
  {
    var t := msg[p..p + |r.Tail()|];
    assert msg[p] == t[0] && msg[p + 1] == t[1] && msg[p + 2] == t[2] && msg[p + 3] == t[3];
    assert msg[p + 8] == t[8] && msg[p + 9] == t[9];
    assert msg[p + 10..p + 10 + |r.data|] == t[10..] == r.data;
  }

  /** Each record is read as what it is. */
  ghost predicate ReadBack(msg: seq<Byte>, rs: seq<Resource>, at: seq<nat>) {
    && |at| == |rs| + 1
    && forall i: nat {:trigger at[i]} | i < |rs| ::
         && RecordOk(msg, at[i]) && at[i + 1] == AfterRecord(msg, at[i])
         && AddressOf(msg, at[i]) == if rs[i].IsIpv4() then [Answer(rs[i].name, OneAddress(rs[i]))] else []
  }

  function OneAddress(r: Resource): Quad {
    if |r.data| == 4 then r.data else ZERO_QUAD
  }

  lemma RecordsReadBack(msg: seq<Byte>, pos: nat, rs: seq<Resource>, at: seq<nat>)
    requires ResourcesOk(rs) && LaidOut(msg, pos, rs) && |at| == |rs| + 1
    requires forall i | 0 <= i <= |rs| :: at[i] == Place(pos, rs, i)
    ensures ReadBack(msg, rs, at)
  {
    hide RecordOk, AfterRecord, AddressOf, Resource.Bytes;
    forall i: nat | i < |rs|
      ensures RecordOk(msg, at[i]) && at[i + 1] == AfterRecord(msg, at[i])
      ensures AddressOf(msg, at[i]) == if rs[i].IsIpv4() then [Answer(rs[i].name, OneAddress(rs[i]))] else []
    {
      var r := rs[i];
      assert InPlace(msg, pos, rs, i);
      assert at[i] == Place(pos, rs, i) && at[i + 1] == Place(pos, rs, i + 1) == at[i] + |r.Bytes()|;
      ResourceReadsBack(msg, at[i], r);
    }
  }

  /** So the answers that the code finds in a message of such records are their addresses, in order. */
  lemma {:induction false} AnswersReadBack(msg: seq<Byte>, rs: seq<Resource>, at: seq<nat>, n: nat)
    requires ReadBack(msg, rs, at) && n <= |rs|
    ensures Records(msg, at) && Addresses(msg, at, n) == Ipv4(rs[..n])
  {
    hide RecordOk, AfterRecord, AddressOf;
    if n > 0 {
      AnswersReadBack(msg, rs, at, n - 1);
      assert rs[..n][..n - 1] == rs[..n - 1];
      assert RecordOk(msg, at[n - 1]) && rs[..n][n - 1] == rs[n - 1];
    }
  }

  // ---- the response ----

  /** What recv gives: an error, or a length and the contents of the 512-byte buffer. */
  datatype Recv = Failed | Got(len: nat, msg: Buffer)

  const EAI_FAIL := 3
  const EAI_NONAME := 6
  const EAI_SYSTEM := 9

  /** A message that is passed over: too short, or with another ID. */
  predicate PassedOver(r: Recv, id: nat) {
    r.Got? && (r.len < 12 || Get16(r.msg[0], r.msg[1]) != id)
  }

  /** The response code says no error, and questions and answers can be read; at is where the
      records start. */
  ghost predicate Readable(msg: Buffer, at: seq<nat>) {
    msg[3] % 16 == 0 ==>
      && QuestionsOk(msg, Get16(msg[4], msg[5]), 12)
      && |at| == Get16(msg[6], msg[7]) + 1 && Records(msg, at)
      && at[0] == AfterQuestions(msg, Get16(msg[4], msg[5]), 12)
  }

  /** The result for an error or a message, by its RCODE. */
  function ReplyCode(r: Recv): int {
    if r.Failed? then EAI_SYSTEM
    else if r.msg[3] % 16 == 3 then EAI_NONAME
    else if r.msg[3] % 16 != 0 then EAI_FAIL
    else 0
  }

  /** By the codes of section 4.1.1 of RFC 1035: 0 is no error, 3 that there is no such name. */
  lemma ReplyCodeExactly(r: Recv)
    requires r.Got?
    ensures var rcode := r.msg[3] % 16;
            && (ReplyCode(r) == 0 <==> rcode == 0) && (ReplyCode(r) == EAI_NONAME <==> rcode == 3)
            && (ReplyCode(r) == EAI_FAIL <==> rcode != 0 && rcode != 3)
  {
  }

  /** A response with the ID of the query and a whole header is not passed over, and no other is. */
  lemma AnswersQuery(id: nat, name: seq<Byte>, len: nat, msg: Buffer, other: nat)
    requires id < 0x1_0000 && other < 0x1_0000 && msg[..2] == Query(other, name)[..2]
    ensures !PassedOver(Got(len, msg), id) <==> len >= 12 && id == other
  {
    QueryFields(other, name);
    assert Query(other, name)[..2] == Query(other, name)[..12][..2];
    assert msg[0] == msg[..2][0] && msg[1] == msg[..2][1];
  }

  /**
   A response without error to a query for a valid name: the question as it was asked, and then
   the records. It can be read, and the answers found in it are the addresses among the records.
   */
  lemma ResponseReadsBack(msg: Buffer, name: seq<Byte>, rs: seq<Resource>, at: seq<nat>)
    requires ValidName(name) && ResourcesOk(rs) && 16 + |Encode(name)| <= 512 && |rs| < 0x1_0000
    requires msg[3] % 16 == 0 && msg[4..6] == [0, 1] && msg[6..8] == [|rs| / 256, |rs| % 256]
    requires msg[12..12 + |Encode(name)|] == Encode(name)
    requires var next := 16 + |Encode(name)|;
             next + |AllBytes(rs)| <= 512 && msg[next..next + |AllBytes(rs)|] == AllBytes(rs)
    requires |at| == |rs| + 1 && forall i | 0 <= i <= |rs| :: at[i] == Place(16 + |Encode(name)|, rs, i)
    ensures Readable(msg, at) && Addresses(msg, at, |rs|) == Ipv4(rs)
  {
    hide Encode, ValidName, NameOk, InBounds, AfterName, Name, Ipv4, Addresses, LaidOut, Records;
    RoundTripExactly(msg, 12, name);
    LaidOutInOrder(msg, 16 + |Encode(name)|, rs);
    RecordsReadBack(msg, 16 + |Encode(name)|, rs, at);
    AnswersReadBack(msg, rs, at, |rs|);
    assert rs[..|rs|] == rs;
    assert msg[4] == msg[4..6][0] && msg[5] == msg[4..6][1] && msg[6] == msg[6..8][0] && msg[7] == msg[6..8][1];
    var next := 16 + |Encode(name)|;
    assert QuestionsOk(msg, 0, next) && AfterQuestions(msg, 0, next) == next;
    assert QuestionsOk(msg, 1, 12) && AfterQuestions(msg, 1, 12) == next;
  }

  /**
   recv_dns_response, on the messages that arrive: the first one that is not passed over
   decides. Nothing arrives after the last one, and the call has not returned then.
   */
  method RecvResponse(inbox: seq<Recv>, id: nat, ghost ats: seq<seq<nat>>)
      returns (ret: int, used: nat, list: List?, ghost owner: map<CString, AddrInfo>, ghost live: set<CString>)
    requires |ats| == |inbox|
    requires forall k | 0 <= k < |inbox| && inbox[k].Got? && !PassedOver(inbox[k], id) :: Readable(inbox[k].msg, ats[k])
    ensures used <= |inbox| && forall k | 0 <= k < used :: PassedOver(inbox[k], id)
    ensures used < |inbox| ==> !PassedOver(inbox[used], id)
    ensures used < |inbox| ==> ret == ReplyCode(inbox[used])
    ensures list != null <==> used < |inbox| && ret == 0
    ensures list != null ==> && list.Linked() && owner.Keys == live && ats[used] != []
                             && Records(inbox[used].msg, ats[used])
                             && Holding(list.nodes, Addresses(inbox[used].msg, ats[used], |ats[used]| - 1), owner)
  {
    used, list, ret, owner, live := 0, null, 0, map[], {};
    while used < |inbox|
      invariant used <= |inbox| && forall k | 0 <= k < used :: PassedOver(inbox[k], id)
      invariant list == null
    {
      var r := inbox[used];
      if r.Failed? {
        return EAI_SYSTEM, used, null, owner, live;
      }
      if !PassedOver(r, id) {
        var rcode := r.msg[3] % 16;
        if rcode == 3 {
          return EAI_NONAME, used, null, owner, live;
        } else if rcode != 0 {
          return EAI_FAIL, used, null, owner, live;
        }
        var presp := SkipQuestions(r.msg);
        list, owner, live := ReadAnswers(r.msg, presp, Get16(r.msg[6], r.msg[7]), ats[used]);
        return 0, used, list, owner, live;
      }
      used := used + 1;
    }
  }
}
