/**
 Domain names in DNS messages (src/getaddrinfo.c:131-296 and 354-371): the encoder of
 QNAMEs, and the decoder of names with compression pointers (section 4.1.4 of RFC 1035).
 */
module DnsName {
  import opened Bytes
  import opened Counting

  const DOT: Byte := '.' as int

  // ---- labels ----

  /** label_ispointer: the two top bits are set. */
  predicate IsPointer(b: Byte) {
    b >= 0xC0
  }

  predicate IsEnd(b: Byte) {
    b == 0
  }

  /** label_isstr. Bytes from 0x40 on, which RFC 1035 reserves, count as strings too. */
  predicate IsStr(b: Byte) {
    0 < b < 0xC0
  }

  /** The two top bits set make a pointer, as in section 4.1.4 of RFC 1035, and a zero byte the
      end. So the branches for malformed labels in skip_labels and parse_name are never taken. */
  lemma NoMalformedLabel(b: Byte)
    ensures IsPointer(b) <==> b / 64 == 3
    ensures IsEnd(b) <==> b == 0
    ensures IsStr(b) <==> !IsPointer(b) && !IsEnd(b)
  {
  }

  /** get_label_len: without the two top bits. */
  function LabelLen(b: Byte): (n: nat)
    ensures n < 64
  {
    if b < 0x40 then b else if b < 0x80 then b - 0x40 else if b < 0xC0 then b - 0x80 else b - 0xC0
  }

  /** get_label_offset: likewise, and in network order. */
  function Offset(hi: Byte, lo: Byte): nat {
    LabelLen(hi) * 256 + lo
  }

  lemma OffsetMasks(hi: Byte, lo: Byte)
    ensures LabelLen(hi) == hi % 0x40 && Offset(hi, lo) == Get16(hi, lo) % 0x4000
  {
  }

  /** Where decoding goes from a label that is not the end. */
  function Next(msg: seq<Byte>, pos: nat): nat
    requires pos < |msg| && (IsPointer(msg[pos]) ==> pos + 1 < |msg|)
  {
    if IsPointer(msg[pos]) then Offset(msg[pos], msg[pos + 1]) else pos + 1 + LabelLen(msg[pos])
  }

  /** From pos, the end is reached over at most n labels and pointers, all within the message. */
  predicate Ends(msg: seq<Byte>, pos: nat, n: nat): (r: bool)
    ensures r ==> pos < |msg|
    decreases n
  {
    && pos < |msg|
    && (IsPointer(msg[pos]) ==> pos + 1 < |msg|)
    && (IsEnd(msg[pos]) || (n > 0 && Ends(msg, Next(msg, pos), n - 1)))
  }

  /** The name at pos can be decoded: its end is reached. */
  ghost predicate NameOk(msg: seq<Byte>, pos: nat) {
    exists n: nat :: Ends(msg, pos, n)
  }

  /** The labels of the expanded name. */
  function Labels(msg: seq<Byte>, pos: nat, n: nat): (ls: seq<seq<Byte>>)
    requires Ends(msg, pos, n)
    ensures forall i | 0 <= i < |ls| :: |ls[i]| < 64
    decreases n
  {
    if IsEnd(msg[pos]) then []
    else if IsPointer(msg[pos]) then Labels(msg, Next(msg, pos), n - 1)
    else [msg[pos + 1..Next(msg, pos)]] + Labels(msg, Next(msg, pos), n - 1)
  }

  /** How many labels and pointers there are. */
  function Steps(msg: seq<Byte>, pos: nat, n: nat): (k: nat)
    requires Ends(msg, pos, n)
    ensures k <= n
    decreases n
  {
    if IsEnd(msg[pos]) then 0 else 1 + Steps(msg, Next(msg, pos), n - 1)
  }

  /** Neither depends on the bound. */
  lemma {:induction false} SameName(msg: seq<Byte>, pos: nat, m: nat, n: nat)
    requires Ends(msg, pos, m) && Ends(msg, pos, n)
    ensures Labels(msg, pos, m) == Labels(msg, pos, n) && Steps(msg, pos, m) == Steps(msg, pos, n)
    decreases n
  {
    if !IsEnd(msg[pos]) {
      SameName(msg, Next(msg, pos), m - 1, n - 1);
    }
  }

  /** The labels joined by dots. */
  function Dotted(ls: seq<seq<Byte>>): seq<Byte> {
    if ls == [] then [] else if |ls| == 1 then ls[0] else ls[0] + [DOT] + Dotted(ls[1..])
  }

  ghost function NameLabels(msg: seq<Byte>, pos: nat): seq<seq<Byte>>
    requires NameOk(msg, pos)
  {
    var n: nat :| Ends(msg, pos, n);
    Labels(msg, pos, n)
  }

  ghost function Name(msg: seq<Byte>, pos: nat): seq<Byte>
    requires NameOk(msg, pos)
  {
    Dotted(NameLabels(msg, pos))
  }

  lemma NameIs(msg: seq<Byte>, pos: nat, n: nat)
    requires Ends(msg, pos, n)
    ensures NameOk(msg, pos) && NameLabels(msg, pos) == Labels(msg, pos, n)
    ensures Name(msg, pos) == Dotted(Labels(msg, pos, n))
  {
    var m: nat :| Ends(msg, pos, m) && NameLabels(msg, pos) == Labels(msg, pos, m);
    SameName(msg, pos, m, n);
  }

  lemma {:induction false} DottedSnoc(ls: seq<seq<Byte>>, l: seq<Byte>)
    ensures Dotted(ls + [l]) == if ls == [] then l else Dotted(ls) + [DOT] + l
  {
    if |ls| > 1 {
      DottedSnoc(ls[1..], l);
      assert (ls + [l])[1..] == ls[1..] + [l];
    } else if |ls| == 1 {
      assert (ls + [l])[1..] == [l];
    }
  }

  /** A length kept in a uint16_t. */
  function Low16(n: nat): (r: nat)
    ensures r < 0x1_0000 && (n < 0x1_0000 ==> r == n)
  {
    n % 0x1_0000
  }

  lemma Low16Plus(t: nat, n: nat)
    ensures Low16(Low16(t) + n) == Low16(t + n)
  {
  }

  /**
   parse_name. The bytes it writes through dst, when dst is given, are the dotted name and a
   terminator; the length it returns, which wraps at 16 bits, is the number of those bytes.
   */
  method ParseName(msg: seq<Byte>, pstart: nat, copy: bool) returns (strLen: nat, dst: seq<Byte>)
    requires NameOk(msg, pstart)
    ensures strLen == Low16(|Name(msg, pstart)| + 1)
    ensures dst == if copy then Name(msg, pstart) + [0] else []
  {
    strLen, dst := 0, [];
    var p: nat, first := pstart, true;
    ghost var bound: nat :| Ends(msg, pstart, bound);
    ghost var ls: seq<seq<Byte>>, n := [], bound; // what has been read, and how far the rest may go
    hide ReadTo, Ends, Labels, Written;
    StartRead(msg, pstart, bound);
    while true
      invariant ReadTo(msg, pstart, bound, ls, p, n)
      invariant first == (ls == [])
      invariant Written(ls, copy, strLen, dst)
      decreases n
    {
      ReadSafe(msg, pstart, bound, ls, p, n);
      if IsPointer(msg[p]) {
        p := Offset(msg[p], msg[p + 1]);
      } else if IsEnd(msg[p]) {
        ReadEnd(msg, pstart, bound, ls, p, n);
        strLen, dst := AppendEnd(ls, copy, strLen, dst);
        return;
      } else {
        ReadString(msg, pstart, bound, ls, p, n);
        var len := LabelLen(msg[p]);
        strLen, dst := AppendLabel(ls, msg[p + 1..p + 1 + len], first, copy, strLen, dst);
        first := false;
        ls := ls + [msg[p + 1..p + 1 + len]];
        p := p + len + 1;
      }
      n := n - 1;
    }
  }

  /** A dot, except before the first label, and the label. */
  method AppendLabel(ghost ls: seq<seq<Byte>>, l: seq<Byte>, first: bool, copy: bool, len: nat, dst0: seq<Byte>)
      returns (strLen: nat, dst: seq<Byte>)
    requires first == (ls == []) && Written(ls, copy, len, dst0)
    ensures Written(ls + [l], copy, strLen, dst)
  {
    DottedSnoc(ls, l);
    strLen, dst := len, dst0;
    if !first {
      if copy {
        dst := dst + [DOT];
      }
      Low16Plus(|Dotted(ls)|, 1);
      strLen := Low16(strLen + 1);
    }
    if copy {
      dst := dst + l;
    }
    Low16Plus(|Dotted(ls)| + if first then 0 else 1, |l|);
    strLen := Low16(strLen + |l|);
  }

  /** The terminator. */
  method AppendEnd(ghost ls: seq<seq<Byte>>, copy: bool, len: nat, dst0: seq<Byte>) returns (strLen: nat, dst: seq<Byte>)
    requires Written(ls, copy, len, dst0)
    ensures strLen == Low16(|Dotted(ls)| + 1) && dst == if copy then Dotted(ls) + [0] else []
  {
    Low16Plus(|Dotted(ls)|, 1);
    dst := if copy then dst0 + [0] else dst0;
    strLen := Low16(len + 1);
  }

  ghost predicate Written(ls: seq<seq<Byte>>, copy: bool, strLen: nat, dst: seq<Byte>) {
    strLen == Low16(|Dotted(ls)|) && dst == if copy then Dotted(ls) else []
  }

  /** The labels ls have been read, and what is at p is the rest of the name. */
  ghost predicate ReadTo(msg: seq<Byte>, start: nat, bound: nat, ls: seq<seq<Byte>>, p: nat, n: nat)
    requires Ends(msg, start, bound)
  {
    Ends(msg, p, n) && Labels(msg, start, bound) == ls + Labels(msg, p, n)
  }

  lemma StartRead(msg: seq<Byte>, start: nat, bound: nat)
    requires Ends(msg, start, bound)
    ensures ReadTo(msg, start, bound, [], start, bound) && Name(msg, start) == Dotted(Labels(msg, start, bound))
    ensures forall copy: bool :: Written([], copy, 0, [])
  {
    NameIs(msg, start, bound);
  }

  /** What is at p can be read; if it is a pointer, the rest of the name is where it leads. */
  lemma ReadSafe(msg: seq<Byte>, start: nat, bound: nat, ls: seq<seq<Byte>>, p: nat, n: nat)
    requires Ends(msg, start, bound) && ReadTo(msg, start, bound, ls, p, n)
    ensures p < |msg| && (IsPointer(msg[p]) ==> p + 1 < |msg|)
    ensures !IsEnd(msg[p]) ==> n > 0
    ensures IsPointer(msg[p]) ==> ReadTo(msg, start, bound, ls, Offset(msg[p], msg[p + 1]), n - 1)
  {
  }

  lemma ReadEnd(msg: seq<Byte>, start: nat, bound: nat, ls: seq<seq<Byte>>, p: nat, n: nat)
    requires Ends(msg, start, bound) && ReadTo(msg, start, bound, ls, p, n) && IsEnd(msg[p])
    ensures Labels(msg, start, bound) == ls
  {
  }

  lemma ReadString(msg: seq<Byte>, start: nat, bound: nat, ls: seq<seq<Byte>>, p: nat, n: nat)
    requires Ends(msg, start, bound) && ReadTo(msg, start, bound, ls, p, n) && IsStr(msg[p])
    ensures var next := p + 1 + LabelLen(msg[p]);
            n > 0 && next < |msg| && ReadTo(msg, start, bound, ls + [msg[p + 1..next]], next, n - 1)
  {
    var next := p + 1 + LabelLen(msg[p]);
    assert ls + Labels(msg, p, n) == ls + [msg[p + 1..next]] + Labels(msg, next, n - 1);
  }

  /**
   new_name: a sizing pass, then a copying pass into a block of that size. It succeeds on
   every name, and fills the block exactly, unless the size wraps around.
   */
  method NewName(msg: seq<Byte>, pstart: nat) returns (size: nat, text: seq<Byte>)
    requires NameOk(msg, pstart)
    ensures text == if size == 0 then [] else Name(msg, pstart) + [0]
    ensures size == Low16(|Name(msg, pstart)| + 1)
    ensures |Name(msg, pstart)| < 0xFFFF ==> size == |text| && text == Name(msg, pstart) + [0]
  {
    size, text := ParseName(msg, pstart, false);
    if size != 0 {
      var _, t := ParseName(msg, pstart, true);
      text := t;
    }
  }

  // ---- which names end, and how long they are ----

  /** Every pointer leads before the start seg of the segment that it ends, as section 4.1.4 of
      RFC 1035 has it: to a prior occurrence of the name. */
  predicate Backward(msg: seq<Byte>, seg: nat, pos: nat)
    decreases seg, |msg| - pos
  {
    && pos < |msg|
    && (IsPointer(msg[pos]) ==> pos + 1 < |msg| && Next(msg, pos) < seg && Backward(msg, Next(msg, pos), Next(msg, pos)))
    && (IsStr(msg[pos]) ==> Backward(msg, seg, Next(msg, pos)))
  }

  /** Such names can be decoded, in as many steps as there are. */
  lemma {:induction false} BackwardEnds(msg: seq<Byte>, seg: nat, pos: nat)
    requires Backward(msg, seg, pos)
    ensures NameOk(msg, pos)
    decreases seg, |msg| - pos
  {
    if IsEnd(msg[pos]) {
      assert Ends(msg, pos, 0);
    } else {
      BackwardEnds(msg, if IsPointer(msg[pos]) then Next(msg, pos) else seg, Next(msg, pos));
      var n: nat :| Ends(msg, Next(msg, pos), n);
      assert Ends(msg, pos, n + 1);
    }
  }

  /** The places that decoding passes. */
  ghost function Places(msg: seq<Byte>, pos: nat, n: nat): set<nat>
    requires Ends(msg, pos, n)
    decreases n
  {
    if IsEnd(msg[pos]) then {} else {pos} + Places(msg, Next(msg, pos), n - 1)
  }

  /** From each of them on there are no more steps than from the start. */
  lemma {:induction false} PlacesOnTheWay(msg: seq<Byte>, pos: nat, n: nat, q: nat)
    requires Ends(msg, pos, n) && q in Places(msg, pos, n)
    ensures q < |msg| && exists m: nat :: Ends(msg, q, m) && Steps(msg, q, m) <= Steps(msg, pos, n)
    decreases n
  {
    if q != pos {
      PlacesOnTheWay(msg, Next(msg, pos), n - 1, q);
    } else {
      assert Steps(msg, q, n) <= Steps(msg, pos, n);
    }
  }

  /** So none is passed twice. */
  lemma {:induction false} PlacesDistinct(msg: seq<Byte>, pos: nat, n: nat)
    requires Ends(msg, pos, n)
    ensures |Places(msg, pos, n)| == Steps(msg, pos, n)
    decreases n
  {
    if !IsEnd(msg[pos]) {
      var next := Next(msg, pos);
      PlacesDistinct(msg, next, n - 1);
      if pos in Places(msg, next, n - 1) {
        PlacesOnTheWay(msg, next, n - 1, pos);
        var m: nat :| Ends(msg, pos, m) && Steps(msg, pos, m) <= Steps(msg, next, n - 1);
        SameName(msg, pos, m, n);
        assert false;
      }
    }
  }

  /** There are no more steps than bytes. */
  lemma StepsBound(msg: seq<Byte>, pos: nat, n: nat)
    requires Ends(msg, pos, n)
    ensures Steps(msg, pos, n) <= |msg|
  {
    PlacesDistinct(msg, pos, n);
    forall q | q in Places(msg, pos, n)
      ensures q < |msg|
    {
      PlacesOnTheWay(msg, pos, n, q);
    }
    AtMost(Places(msg, pos, n), |msg|);
  }

  lemma {:induction false} StepsSuffice(msg: seq<Byte>, pos: nat, n: nat, m: nat)
    requires Ends(msg, pos, n) && Steps(msg, pos, n) <= m
    ensures Ends(msg, pos, m)
    decreases n
  {
    if !IsEnd(msg[pos]) {
      StepsSuffice(msg, Next(msg, pos), n - 1, m - 1);
    }
  }

  /** Decoding either ends within as many steps as the message has bytes, or never does. */
  lemma EndsSoonOrNever(msg: seq<Byte>, pos: nat)
    ensures NameOk(msg, pos) <==> Ends(msg, pos, |msg|)
  {
    if n: nat :| Ends(msg, pos, n) {
      StepsBound(msg, pos, n);
      StepsSuffice(msg, pos, n, |msg|);
    }
  }

  lemma {:induction false} FewLabels(msg: seq<Byte>, pos: nat, n: nat)
    requires Ends(msg, pos, n)
    ensures |Labels(msg, pos, n)| <= Steps(msg, pos, n)
    decreases n
  {
    if !IsEnd(msg[pos]) {
      FewLabels(msg, Next(msg, pos), n - 1);
    }
  }

  lemma {:induction false} DottedSize(ls: seq<seq<Byte>>)
    requires forall i | 0 <= i < |ls| :: |ls[i]| < 64
    ensures |Dotted(ls)| <= 64 * |ls|
  {
    if |ls| > 1 {
      DottedSize(ls[1..]);
    }
  }

  /** An expanded name is at most 64 times as long as the message. */
  lemma NameSize(msg: seq<Byte>, pos: nat)
    requires NameOk(msg, pos)
    ensures |Name(msg, pos)| <= 64 * |msg|
  {
    var n: nat :| Ends(msg, pos, n);
    NameIs(msg, pos, n);
    StepsBound(msg, pos, n);
    FewLabels(msg, pos, n);
    DottedSize(Labels(msg, pos, n));
  }

  // ---- skipping a name ----

  /** The labels from pos on stay within the message, up to a pointer or the end. */
  predicate InBounds(msg: seq<Byte>, pos: nat)
    decreases |msg| - pos
  {
    && pos < |msg|
    && (IsPointer(msg[pos]) ==> pos + 1 < |msg|)
    && (IsStr(msg[pos]) ==> InBounds(msg, pos + 1 + LabelLen(msg[pos])))
  }

  /** The position after the name at pos, which is where its last segment of its own ends. */
  function AfterName(msg: seq<Byte>, pos: nat): (r: nat)
    requires InBounds(msg, pos)
    ensures pos < r <= |msg|
    decreases |msg| - pos
  {
    if IsEnd(msg[pos]) then pos + 1
    else if IsPointer(msg[pos]) then pos + 2
    else AfterName(msg, pos + 1 + LabelLen(msg[pos]))
  }

  lemma {:induction false} EndsInBounds(msg: seq<Byte>, pos: nat, n: nat)
    requires Ends(msg, pos, n)
    ensures InBounds(msg, pos)
    decreases n
  {
    if IsStr(msg[pos]) {
      EndsInBounds(msg, Next(msg, pos), n - 1);
    }
  }

  /** A name that can be decoded can be skipped. */
  lemma NameInBounds(msg: seq<Byte>, pos: nat)
    requires NameOk(msg, pos)
    ensures InBounds(msg, pos)
  {
    var n: nat :| Ends(msg, pos, n);
    EndsInBounds(msg, pos, n);
  }

  /** skip_labels. */
  method SkipLabels(msg: seq<Byte>, pos: nat) returns (p: nat)
    requires InBounds(msg, pos)
    ensures p == AfterName(msg, pos)
  {
    p := pos;
    while !IsEnd(msg[p])
      invariant InBounds(msg, p) && AfterName(msg, pos) == AfterName(msg, p)
      decreases |msg| - p
    {
      if IsPointer(msg[p]) {
        p := p + 2;
        return;
      }
      p := p + LabelLen(msg[p]) + 1;
    }
    p := p + 1;
  }

  // ---- the encoder ----

  /** The first label of a dotted name is its first k bytes. */
  predicate EndsLabel(name: seq<Byte>, k: nat) {
    k <= |name| && DOT !in name[..k] && (k < |name| ==> name[k] == DOT)
  }

  lemma {:induction false} LabelExists(name: seq<Byte>) returns (k: nat)
    ensures EndsLabel(name, k)
  {
    k := 0;
    while k < |name| && name[k] != DOT
      invariant k <= |name| && DOT !in name[..k]
    {
      k := k + 1;
    }
  }

  lemma LabelUnique(name: seq<Byte>, j: nat, k: nat)
    requires EndsLabel(name, j) && EndsLabel(name, k)
    ensures j == k
  {
  }

  /** The length of the first label. */
  ghost function FirstLabel(name: seq<Byte>): (k: nat)
    ensures EndsLabel(name, k)
  {
    assert exists k: nat :: EndsLabel(name, k) by {
      var k := LabelExists(name);
    }
    var k: nat :| EndsLabel(name, k);
    k
  }

  /** What is left after the first label and the dot that ends it. */
  ghost function Rest(name: seq<Byte>): seq<Byte> {
    var k := FirstLabel(name);
    if k < |name| then name[k + 1..] else []
  }

  /** The labels the encoder makes of a name. */
  ghost function SplitName(name: seq<Byte>): seq<seq<Byte>>
    decreases |name|
  {
    if name == [] then [] else [name[..FirstLabel(name)]] + SplitName(Rest(name))
  }

  /** Labels in the form of section 3.1 of RFC 1035; the length is stored in a byte. */
  function EncodeLabels(ls: seq<seq<Byte>>): (r: seq<Byte>)
    ensures |r| > 0
  {
    if ls == [] then [0] else LabelBytes(ls[0]) + EncodeLabels(ls[1..])
  }

  function LabelBytes(l: seq<Byte>): (r: seq<Byte>)
    ensures |r| == 1 + |l|
  {
    [|l| % 256] + l
  }

  /** The QNAME that send_dns_query builds. */
  ghost function Encode(name: seq<Byte>): seq<Byte> {
    EncodeLabels(SplitName(name))
  }

  /** One byte more than the name has, and one for the length of a last label without a dot. */
  lemma {:induction false} EncodeSize(name: seq<Byte>)
    ensures |Encode(name)| == |name| + if name == [] || name[|name| - 1] == DOT then 1 else 2
    decreases |name|
  {
    if name != [] {
      var k := FirstLabel(name);
      EncodeSize(Rest(name));
      assert SplitName(name)[1..] == SplitName(Rest(name));
      assert k == |name| ==> name[..k] == name && name[|name| - 1] in name;
    }
  }

  /** No empty label, none over 63 bytes, and no dot at the end. */
  ghost predicate ValidName(name: seq<Byte>)
    decreases |name|
  {
    name == [] ||
    var k := FirstLabel(name);
    1 <= k <= 63 && (k == |name| || (Rest(name) != [] && ValidName(Rest(name))))
  }

  predicate Good(l: seq<Byte>) {
    1 <= |l| <= 63
  }

  // ---- labels in a message ----

  /** A label with its length before it is in the message at pos. */
  predicate LabelAt(msg: seq<Byte>, pos: nat, l: seq<Byte>) {
    && pos + 1 + |l| < |msg|
    && msg[pos] == |l| % 256 && msg[pos + 1..pos + 1 + |l|] == l
  }

  /** It is decoded as such, when it is neither empty nor too long. */
  lemma LabelStep(msg: seq<Byte>, pos: nat, l: seq<Byte>, n: nat)
    requires LabelAt(msg, pos, l) && 1 <= |l| <= 63
    ensures Ends(msg, pos, n) <==> n > 0 && Ends(msg, pos + 1 + |l|, n - 1)
    ensures Ends(msg, pos, n) ==> Labels(msg, pos, n) == [l] + Labels(msg, pos + 1 + |l|, n - 1)
  {
  }

  /** And skipped as such. */
  lemma SkipStep(msg: seq<Byte>, pos: nat, l: seq<Byte>)
    requires LabelAt(msg, pos, l) && 1 <= |l| <= 63
    ensures InBounds(msg, pos) <==> InBounds(msg, pos + 1 + |l|)
    ensures InBounds(msg, pos) ==> AfterName(msg, pos) == AfterName(msg, pos + 1 + |l|)
  {
  }

  /** The labels, and the zero byte that ends them, are in the message at pos. */
  predicate LabelsAt(msg: seq<Byte>, pos: nat, ls: seq<seq<Byte>>)
    decreases |ls|
  {
    && pos < |msg|
    && if ls == [] then msg[pos] == 0 else LabelAt(msg, pos, ls[0]) && LabelsAt(msg, pos + 1 + |ls[0]|, ls[1..])
  }

  lemma {:induction false} EncodeAt(msg: seq<Byte>, pos: nat, ls: seq<seq<Byte>>)
    requires pos + |EncodeLabels(ls)| <= |msg| && msg[pos..pos + |EncodeLabels(ls)|] == EncodeLabels(ls)
    ensures LabelsAt(msg, pos, ls)
    decreases |ls|
  {
    if ls == [] {
      assert msg[pos] == msg[pos..pos + 1][0];
    } else {
      Parts(msg, pos, ls[0], EncodeLabels(ls[1..]));
      EncodeAt(msg, pos + 1 + |ls[0]|, ls[1..]);
    }
  }

  lemma Parts(msg: seq<Byte>, pos: nat, l: seq<Byte>, c: seq<Byte>)
    requires pos + 1 + |l| + |c| <= |msg| && msg[pos..pos + 1 + |l| + |c|] == LabelBytes(l) + c
    ensures msg[pos] == |l| % 256 && msg[pos + 1..pos + 1 + |l|] == l
    ensures msg[pos + 1 + |l|..pos + 1 + |l| + |c|] == c
  {
    var d := LabelBytes(l) + c;
    forall i: nat | i < |d| ensures msg[pos + i] == d[i] {
      assert msg[pos..pos + 1 + |l| + |c|][i] == d[i];
    }
    assert msg[pos + 0] == d[0];
    forall i: nat | i < |l| ensures msg[pos + 1 + i] == l[i] {
      assert msg[pos + (1 + i)] == d[1 + i];
    }
    forall i: nat | i < |c| ensures msg[pos + 1 + |l| + i] == c[i] {
      assert msg[pos + (1 + |l| + i)] == d[1 + |l| + i];
    }
  }

  /** Good labels are decoded as they are. */
  lemma {:induction false} DecodeGood(msg: seq<Byte>, pos: nat, ls: seq<seq<Byte>>)
    requires LabelsAt(msg, pos, ls) && forall i | 0 <= i < |ls| :: Good(ls[i])
    ensures Ends(msg, pos, |ls|) && Labels(msg, pos, |ls|) == ls
    decreases |ls|
  {
    hide LabelAt;
    if ls != [] {
      DecodeGood(msg, pos + 1 + |ls[0]|, ls[1..]);
      LabelStep(msg, pos, ls[0], |ls|);
    }
  }

  /** At an empty label decoding stops, and after one that is too long anything may come: up
      to there, the good ones are decoded as they are. */
  lemma {:induction false} DecodeUpTo(msg: seq<Byte>, pos: nat, n: nat, ls: seq<seq<Byte>>, j: nat)
    requires LabelsAt(msg, pos, ls) && Ends(msg, pos, n)
    requires j < |ls| && forall i | 0 <= i < j :: Good(ls[i])
    ensures var out := Labels(msg, pos, n);
            j <= |out| && out[..j] == ls[..j] && (ls[j] == [] ==> |out| == j)
    decreases |ls|
  {
    if j == 0 {
      DecodeEmpty(msg, pos, n, ls);
    } else {
      hide LabelAt, Ends, Labels;
      LabelStep(msg, pos, ls[0], n);
      DecodeUpTo(msg, pos + 1 + |ls[0]|, n - 1, ls[1..], j - 1);
      OneMore(ls[0], Labels(msg, pos + 1 + |ls[0]|, n - 1), ls, j);
    }
  }

  lemma DecodeEmpty(msg: seq<Byte>, pos: nat, n: nat, ls: seq<seq<Byte>>)
    requires LabelsAt(msg, pos, ls) && Ends(msg, pos, n) && ls != []
    ensures ls[0] == [] ==> Labels(msg, pos, n) == []
  {
  }

  lemma OneMore(l: seq<Byte>, out: seq<seq<Byte>>, ls: seq<seq<Byte>>, j: nat)
    requires 0 < j <= |ls| && l == ls[0] && j - 1 <= |out| && out[..j - 1] == ls[1..][..j - 1]
    ensures ([l] + out)[..j] == ls[..j]
  {
    assert ([l] + out)[..j] == [l] + out[..j - 1] && ls[..j] == [ls[0]] + ls[1..][..j - 1];
  }

  /** Skipping good labels leads to the byte after them. */
  lemma {:induction false} SkipGood(msg: seq<Byte>, pos: nat, ls: seq<seq<Byte>>)
    requires LabelsAt(msg, pos, ls) && forall i | 0 <= i < |ls| :: Good(ls[i])
    ensures InBounds(msg, pos) && AfterName(msg, pos) == pos + |EncodeLabels(ls)|
    decreases |ls|
  {
    if ls != [] {
      SkipGood(msg, pos + 1 + |ls[0]|, ls[1..]);
      SkipStep(msg, pos, ls[0]);
      assert |EncodeLabels(ls)| == 1 + |ls[0]| + |EncodeLabels(ls[1..])|;
    }
  }

  // ---- compressed names ----

  /** The labels are in the message at pos, with something after them. */
  predicate PrefixAt(msg: seq<Byte>, pos: nat, ls: seq<seq<Byte>>)
    decreases |ls|
  {
    ls != [] ==> LabelAt(msg, pos, ls[0]) && PrefixAt(msg, pos + 1 + |ls[0]|, ls[1..])
  }

  /** How many bytes they take. */
  function PrefixSize(ls: seq<seq<Byte>>): nat {
    if ls == [] then 0 else 1 + |ls[0]| + PrefixSize(ls[1..])
  }

  /** A pointer to target, as section 4.1.4 of RFC 1035 has it: two bits and an offset of 14 bits. */
  predicate PointerAt(msg: seq<Byte>, pos: nat, target: nat) {
    pos + 1 < |msg| && (msg[pos] as int) * 256 + msg[pos + 1] == 0xC000 + target && target < 0x4000
  }

  /** A name that ends in a pointer has its own labels and then those of the name pointed to. It
      is skipped to the end of the pointer. */
  lemma {:induction false} CompressedName(msg: seq<Byte>, pos: nat, ls: seq<seq<Byte>>, target: nat)
    requires PrefixAt(msg, pos, ls) && forall i | 0 <= i < |ls| :: Good(ls[i])
    requires PointerAt(msg, pos + PrefixSize(ls), target) && NameOk(msg, target)
    ensures NameOk(msg, pos) && NameLabels(msg, pos) == ls + NameLabels(msg, target)
    ensures InBounds(msg, pos) && AfterName(msg, pos) == pos + PrefixSize(ls) + 2
    decreases |ls|
  {
    hide LabelAt, PointerAt, NameOk, NameLabels, InBounds, AfterName;
    if ls == [] {
      PointerName(msg, pos, target);
    } else {
      var next := pos + 1 + |ls[0]|;
      CompressedName(msg, next, ls[1..], target);
      LabelName(msg, pos, ls[0]);
      assert [ls[0]] + (ls[1..] + NameLabels(msg, target)) == ls + NameLabels(msg, target);
    }
  }

  lemma PointerName(msg: seq<Byte>, pos: nat, target: nat)
    requires PointerAt(msg, pos, target) && NameOk(msg, target)
    ensures NameOk(msg, pos) && NameLabels(msg, pos) == NameLabels(msg, target)
    ensures InBounds(msg, pos) && AfterName(msg, pos) == pos + 2
  {
    var n: nat :| Ends(msg, target, n);
    assert IsPointer(msg[pos]) && Next(msg, pos) == target;
    assert Ends(msg, pos, n + 1);
    NameIs(msg, target, n);
    NameIs(msg, pos, n + 1);
  }

  lemma LabelName(msg: seq<Byte>, pos: nat, l: seq<Byte>)
    requires LabelAt(msg, pos, l) && Good(l) && NameOk(msg, pos + 1 + |l|) && InBounds(msg, pos + 1 + |l|)
    ensures NameOk(msg, pos) && NameLabels(msg, pos) == [l] + NameLabels(msg, pos + 1 + |l|)
    ensures InBounds(msg, pos) && AfterName(msg, pos) == AfterName(msg, pos + 1 + |l|)
  {
    hide LabelAt;
    var next := pos + 1 + |l|;
    var n: nat :| Ends(msg, next, n);
    LabelStep(msg, pos, l, n + 1);
    SkipStep(msg, pos, l);
    NameIs(msg, next, n);
    NameIs(msg, pos, n + 1);
  }

  /** In dotted form the two are joined by a dot. */
  lemma {:induction false} DottedConcat(ls: seq<seq<Byte>>, rest: seq<seq<Byte>>)
    requires ls != [] && rest != []
    ensures Dotted(ls + rest) == Dotted(ls) + [DOT] + Dotted(rest)
    decreases |ls|
  {
    assert (ls + rest)[1..] == ls[1..] + rest;
    if |ls| > 1 {
      DottedConcat(ls[1..], rest);
    } else {
      assert ls[1..] + rest == rest;
    }
  }

  // ---- joining labels ----

  lemma DottedParts(l: seq<Byte>, ls: seq<seq<Byte>>)
    ensures Dotted([l] + ls) == if ls == [] then l else l + [DOT] + Dotted(ls)
  {
    assert ([l] + ls)[1..] == ls;
  }

  /** A dotted name is its first label, or that, a dot and the rest; and only so. */
  lemma NameParts(name: seq<Byte>)
    requires name != []
    ensures var k := FirstLabel(name);
            if k == |name| then name == name[..k] else name == name[..k] + [DOT] + Rest(name)
    ensures var k := FirstLabel(name);
            forall tail: seq<Byte> | name == name[..k] + [DOT] + tail :: tail == Rest(name)
  {
    var k := FirstLabel(name);
    forall tail: seq<Byte> | name == name[..k] + [DOT] + tail ensures tail == Rest(name) {
      assert (name[..k] + [DOT] + tail)[k + 1..] == tail;
    }
  }

  /** Labels of at most 63 bytes joined by dots never give a run of 64 bytes without one. */
  lemma NoLongRun(ls: seq<seq<Byte>>)
    requires forall i | 0 <= i < |ls| :: |ls[i]| < 64
    ensures FirstLabel(Dotted(ls)) <= 63
  {
    var name := Dotted(ls);
    if |ls| > 1 {
      assert name[|ls[0]|] == DOT;
    }
  }

  /** A name is valid exactly when the labels it is split into are good and join to it again. */
  lemma {:induction false} ValidExactly(name: seq<Byte>)
    ensures var ls := SplitName(name);
            ValidName(name) <==> Dotted(ls) == name && forall i | 0 <= i < |ls| :: Good(ls[i])
    decreases |name|
  {
    if name != [] {
      ValidExactly(Rest(name));
      NameParts(name);
      DottedParts(name[..FirstLabel(name)], SplitName(Rest(name)));
      GoodParts(name[..FirstLabel(name)], SplitName(Rest(name)));
    }
  }

  lemma GoodParts(l: seq<Byte>, ls: seq<seq<Byte>>)
    ensures (forall i | 0 <= i < |[l] + ls| :: Good(([l] + ls)[i])) <==> Good(l) && forall i | 0 <= i < |ls| :: Good(ls[i])
  {
    if forall i | 0 <= i < |[l] + ls| :: Good(([l] + ls)[i]) {
      assert Good(([l] + ls)[0]);
      forall i | 0 <= i < |ls| ensures Good(ls[i]) {
        assert ([l] + ls)[i + 1] == ls[i];
      }
    }
  }

  /** Labels that agree with those of the name up to a bad one do not join to the name. */
  lemma {:induction false} BadNeverJoins(name: seq<Byte>, out: seq<seq<Byte>>, j: nat)
    requires forall i | 0 <= i < |out| :: |out[i]| < 64
    requires var ls := SplitName(name);
             j < |ls| && !Good(ls[j]) && j <= |out| && out[..j] == ls[..j] && (ls[j] == [] ==> |out| == j)
    ensures Dotted(out) != name
    decreases |name|
  {
    if j == 0 {
      NoLongRun(out);
    } else {
      var l, rest, out' := name[..FirstLabel(name)], SplitName(Rest(name)), out[1..];
      SamePrefix(out, l, rest, j);
      BadNeverJoins(Rest(name), out', j - 1);
      DottedParts(l, out');
      NameParts(name);
    }
  }

  lemma SamePrefix(out: seq<seq<Byte>>, l: seq<Byte>, rest: seq<seq<Byte>>, j: nat)
    requires 0 < j <= |out| && j <= 1 + |rest| && out[..j] == ([l] + rest)[..j]
    ensures out == [l] + out[1..] && out[1..][..j - 1] == rest[..j - 1]
  {
    assert out[0] == out[..j][0];
    assert out[1..][..j - 1] == out[..j][1..];
    assert rest[..j - 1] == ([l] + rest)[..j][1..];
  }

  // ---- the round trip ----

  /** The round trip of a name through encoder and decoder gives it back exactly when no label
      is empty or longer than 63 bytes and it does not end in a dot. */
  lemma RoundTripExactly(msg: seq<Byte>, pos: nat, name: seq<Byte>)
    requires pos + |Encode(name)| <= |msg| && msg[pos..pos + |Encode(name)|] == Encode(name)
    ensures NameOk(msg, pos) && Name(msg, pos) == name <==> ValidName(name)
    ensures ValidName(name) ==> InBounds(msg, pos) && AfterName(msg, pos) == pos + |Encode(name)|
  {
    var ls := SplitName(name);
    EncodeAt(msg, pos, ls);
    ValidExactly(name);
    if forall i | 0 <= i < |ls| :: Good(ls[i]) {
      DecodeGood(msg, pos, ls);
      NameIs(msg, pos, |ls|);
      SkipGood(msg, pos, ls);
    } else if NameOk(msg, pos) {
      var n: nat :| Ends(msg, pos, n);
      NameIs(msg, pos, n);
      DecodeUpTo(msg, pos, n, ls, FirstBad(ls));
      BadNeverJoins(name, Labels(msg, pos, n), FirstBad(ls));
    }
  }

  ghost function FirstBad(ls: seq<seq<Byte>>): (j: nat)
    requires exists i :: 0 <= i < |ls| && !Good(ls[i])
    ensures j < |ls| && !Good(ls[j]) && forall i | 0 <= i < j :: Good(ls[i])
  {
    if !Good(ls[0]) then 0 else
      assert exists i :: 0 <= i < |ls[1..]| && !Good(ls[1..][i]) by {
        var i :| 0 <= i < |ls| && !Good(ls[i]);
        assert ls[1..][i - 1] == ls[i];
      }
      1 + FirstBad(ls[1..])
  }
}
