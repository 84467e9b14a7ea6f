/**
 The queue of pending signals (src/signal.c:83-180, 462-489, 564-572): an
 unordered array of slots with wrapping order numbers, which behaves as a bounded
 queue, oldest signal first, from which any subset of the signals can be taken.

 sigset_t is modelled as the set of signals it contains.
 */
module SignalQueue {
  import opened Counting

  const SIGQUEUE_MAX: nat := 32

  /** si_signo 0 marks a free slot; sigmask is defined for signals 1 to 32. */
  datatype Info = Info(signo: nat, value: int, code: int)

  datatype Item = Item(info: Info, order: int)

  // ---- order numbers ----

  /** Two's complement wrap-around of int. */
  function Wrap(x: int): (r: int)
    ensures -0x8000_0000 <= r < 0x8000_0000
  {
    (x + 0x8000_0000) % 0x1_0000_0000 - 0x8000_0000
  }

  /** The test with which signal_dequeue prefers order a to order b. */
  predicate Before(a: int, b: int) {
    Wrap(a - b) < 0
  }

  /** The test tells which of two signals was queued first, whichever way round it is
      asked, exactly as long as fewer than 2^31 signals were queued in between. */
  lemma OrderExactly(a: int, b: int)
    requires 0 < b - a < 0x1_0000_0000
    ensures Before(Wrap(a), Wrap(b)) && !Before(Wrap(b), Wrap(a)) <==> b - a < 0x8000_0000
  {
    WrapDifference(a, b);
    WrapDifference(b, a);
  }

  /** Wrapping the operands first does not change a wrapped difference. */
  lemma WrapDifference(a: int, b: int)
    ensures Wrap(Wrap(a) - Wrap(b)) == Wrap(a - b)
  {
    var ka, kb := (a + 0x8000_0000) / 0x1_0000_0000, (b + 0x8000_0000) / 0x1_0000_0000;
    assert Wrap(a) == a - ka * 0x1_0000_0000 && Wrap(b) == b - kb * 0x1_0000_0000;
    WrapPeriodic(a - b, kb - ka);
  }

  lemma WrapPeriodic(x: int, k: int)
    ensures Wrap(x + k * 0x1_0000_0000) == Wrap(x)
  {
  }

  // ---- the queue as a sequence ----

  /** ~procmask: the signals, of the 32 there are, that the mask does not hold back. */
  function Unblocked(mask: set<nat>): set<nat> {
    set sig: nat | 1 <= sig <= 32 && sig !in mask
  }

  /** Those signals of the queue that are in the set, in order. */
  function Select(q: seq<Info>, sigs: set<nat>): seq<Info> {
    if q == [] then []
    else (if q[0].signo in sigs then [q[0]] else []) + Select(q[1..], sigs)
  }

  /** Those that are not. */
  function Reject(q: seq<Info>, sigs: set<nat>): seq<Info> {
    if q == [] then []
    else (if q[0].signo in sigs then [] else [q[0]]) + Reject(q[1..], sigs)
  }

  /** k is the position of the oldest signal of the set. */
  ghost predicate IsFirst(q: seq<Info>, sigs: set<nat>, k: nat) {
    k < |q| && q[k].signo in sigs && forall j | 0 <= j < k :: q[j].signo !in sigs
  }

  function Without<T>(q: seq<T>, k: nat): seq<T>
    requires k < |q|
  {
    q[..k] + q[k + 1..]
  }

  /** Taking the oldest signal of the set takes the first of Select, and leaves Reject alone. */
  lemma TakeFirst(q: seq<Info>, sigs: set<nat>, k: nat)
    requires IsFirst(q, sigs, k)
    ensures Select(q, sigs) == [q[k]] + Select(Without(q, k), sigs)
    ensures Reject(q, sigs) == Reject(Without(q, k), sigs)
  {
    if k == 0 {
      assert Without(q, 0) == q[1..];
    } else {
      TakeFirst(q[1..], sigs, k - 1);
      assert Without(q, k)[1..] == Without(q[1..], k - 1);
    }
  }

  lemma SelectNone(q: seq<Info>, sigs: set<nat>)
    requires forall j | 0 <= j < |q| :: q[j].signo !in sigs
    ensures Select(q, sigs) == [] && Reject(q, sigs) == q
  {
    if q != [] {
      SelectNone(q[1..], sigs);
    }
  }

  lemma {:induction false} SelectConcat(q: seq<Info>, r: seq<Info>, sigs: set<nat>)
    ensures Select(q + r, sigs) == Select(q, sigs) + Select(r, sigs)
  {
    if q == [] {
      assert q + r == r;
    } else {
      SelectConcat(q[1..], r, sigs);
      assert (q + r)[1..] == q[1..] + r && (q + r)[0] == q[0];
    }
  }

  lemma SelectWithout(q: seq<Info>, sigs: set<nat>, k: nat)
    requires k < |q| && q[k].signo !in sigs
    ensures Select(Without(q, k), sigs) == Select(q, sigs)
  {
    if k == 0 {
      assert Without(q, 0) == q[1..];
    } else {
      SelectWithout(q[1..], sigs, k - 1);
      assert Without(q, k)[1..] == Without(q[1..], k - 1);
    }
  }

  // ---- the drain loop ----

  /** The position of the oldest signal of the set, or the length. */
  function First(q: seq<Info>, sigs: set<nat>): (k: nat)
    ensures k <= |q|
    ensures k < |q| ==> IsFirst(q, sigs, k)
    ensures k == |q| ==> forall j | 0 <= j < |q| :: q[j].signo !in sigs
  {
    if q == [] || q[0].signo in sigs then 0 else 1 + First(q[1..], sigs)
  }

  /** What a signal handler does: it queues signals, and leaves this mask. */
  datatype Reaction = Reaction(queued: seq<Info>, mask: set<nat>)

  /** Those of the signals that find a slot, and are not lost for having number 0. */
  function Admitted(q: seq<Info>, infos: seq<Info>): (r: seq<Info>)
    decreases |infos|
  {
    if infos == [] then []
    else if |q| < SIGQUEUE_MAX && infos[0].signo != 0 then [infos[0]] + Admitted(q + [infos[0]], infos[1..])
    else Admitted(q, infos[1..])
  }

  /** The signals delivered, those that the handlers added to the queue, and what is left. */
  datatype Drained = Drained(delivered: seq<Info>, added: seq<Info>, left: seq<Info>, mask: set<nat>)

  /** The oldest unblocked signal is delivered, its handler reacts, and so on; when there are no
      more reactions, the remaining handlers do nothing. */
  function Drain(q: seq<Info>, mask: set<nat>, rs: seq<Reaction>): Drained
    decreases |rs|, |q|
  {
    var k := First(q, Unblocked(mask));
    if k == |q| then Drained([], [], q, mask)
    else if rs == [] then
      var d := Drain(Without(q, k), mask, []);
      d.(delivered := [q[k]] + d.delivered)
    else
      var q1 := Without(q, k);
      var added := Admitted(q1, rs[0].queued);
      var d := Drain(q1 + added, rs[0].mask, rs[1..]);
      d.(delivered := [q[k]] + d.delivered, added := added + d.added)
  }

  /** Whatever the handlers do, the signals of each number are delivered in the order in which
      they were queued, and none is lost or delivered twice. */
  lemma {:induction false} DrainInOrder(q: seq<Info>, mask: set<nat>, rs: seq<Reaction>, sig: nat)
    ensures var d := Drain(q, mask, rs);
            Select(d.delivered, {sig}) + Select(d.left, {sig}) == Select(q, {sig}) + Select(d.added, {sig})
    decreases |rs|, |q|
  {
    hide Select, Admitted, First, Unblocked;
    var k := First(q, Unblocked(mask));
    if k < |q| {
      var q1 := Without(q, k);
      SelectTaken(q, sig, k);
      if rs == [] {
        var d := Drain(q1, mask, []);
        DrainInOrder(q1, mask, [], sig);
        SelectConcat([q[k]], d.delivered, {sig});
        Reassociate(Select([q[k]], {sig}), Select(d.delivered, {sig}), Select(d.left, {sig}), Select(q1, {sig}), [], Select(d.added, {sig}));
      } else {
        var added := Admitted(q1, rs[0].queued);
        var d := Drain(q1 + added, rs[0].mask, rs[1..]);
        DrainInOrder(q1 + added, rs[0].mask, rs[1..], sig);
        SelectConcat(q1, added, {sig});
        SelectConcat(added, d.added, {sig});
        SelectConcat([q[k]], d.delivered, {sig});
        Reassociate(Select([q[k]], {sig}), Select(d.delivered, {sig}), Select(d.left, {sig}), Select(q1, {sig}), Select(added, {sig}), Select(d.added, {sig}));
      }
    } else {
      SelectConcat([], q, {sig});
      SelectConcat(q, [], {sig});
      assert [] + q == q + [] == q;
    }
  }

  /** The oldest unblocked signal is also the oldest one of its number. */
  lemma SelectTaken(q: seq<Info>, sig: nat, k: nat)
    requires k < |q| && forall j | 0 <= j < k :: q[j].signo != q[k].signo
    ensures Select(q, {sig}) == Select([q[k]], {sig}) + Select(Without(q, k), {sig})
  {
    hide Select, Reject, Without;
    SelectSingle(q[k], {sig});
    if q[k].signo == sig {
      TakeFirst(q, {sig}, k);
    } else {
      SelectWithout(q, {sig}, k);
    }
  }

  lemma Reassociate(x: seq<Info>, a: seq<Info>, l: seq<Info>, q: seq<Info>, e: seq<Info>, d: seq<Info>)
    requires a + l == q + e + d
    ensures x + a + l == x + q + (e + d)
    ensures [] + d == d
  {
    assert x + a + l == x + (a + l);
  }

  predicate AllBlocked(q: seq<Info>, mask: set<nat>) {
    forall i | 0 <= i < |q| :: q[i].signo !in Unblocked(mask)
  }

  /** The mask after i of the reactions, or all of them. */
  function MaskAfter(mask: set<nat>, rs: seq<Reaction>, i: nat): set<nat>
    decreases i
  {
    if i == 0 || rs == [] then mask else MaskAfter(rs[0].mask, rs[1..], i - 1)
  }

  /** Each of the signals is one that the mask does not hold back when it is delivered. */
  ghost predicate UnderMask(delivered: seq<Info>, mask: set<nat>, rs: seq<Reaction>) {
    forall i | 0 <= i < |delivered| :: 1 <= delivered[i].signo <= 32 && delivered[i].signo !in MaskAfter(mask, rs, i)
  }

  /** So it is with those that are delivered; and the mask is in the end what the last of their
      handlers has left. */
  lemma {:induction false} DrainUnderMask(q: seq<Info>, mask: set<nat>, rs: seq<Reaction>)
    ensures var d := Drain(q, mask, rs);
            d.mask == MaskAfter(mask, rs, |d.delivered|) && UnderMask(d.delivered, mask, rs)
    decreases |rs|, |q|
  {
    var k := First(q, Unblocked(mask));
    if k < |q| {
      hide First, UnderMask, MaskAfter, Admitted;
      var q1 := Without(q, k);
      if rs == [] {
        var d1 := Drain(q1, mask, []);
        DrainUnderMask(q1, mask, []);
        UnderMaskFirst(q[k], d1.delivered, mask, [], mask, []);
      } else {
        var q2 := q1 + Admitted(q1, rs[0].queued);
        var d1 := Drain(q2, rs[0].mask, rs[1..]);
        DrainUnderMask(q2, rs[0].mask, rs[1..]);
        UnderMaskFirst(q[k], d1.delivered, mask, rs, rs[0].mask, rs[1..]);
      }
    }
  }

  lemma UnderMaskFirst(first: Info, rest: seq<Info>, mask: set<nat>, rs: seq<Reaction>, mask': set<nat>, rs': seq<Reaction>)
    requires 1 <= first.signo <= 32 && first.signo !in mask && UnderMask(rest, mask', rs')
    requires if rs == [] then mask' == mask && rs' == [] else mask' == rs[0].mask && rs' == rs[1..]
    ensures UnderMask([first] + rest, mask, rs)
    ensures MaskAfter(mask, rs, |[first] + rest|) == MaskAfter(mask', rs', |rest|)
  {
    forall i | 0 <= i < |[first] + rest|
      ensures ([first] + rest)[i].signo !in MaskAfter(mask, rs, i)
    {
      assert i > 0 ==> ([first] + rest)[i] == rest[i - 1];
    }
  }

  /** In the end every signal that is left is held back by the mask. */
  lemma DrainLeavesMasked(q: seq<Info>, mask: set<nat>, rs: seq<Reaction>)
    ensures var d := Drain(q, mask, rs);
            forall i | 0 <= i < |d.left| && 1 <= d.left[i].signo <= 32 :: d.left[i].signo in d.mask
  {
    DrainLeavesBlocked(q, mask, rs);
  }

  lemma {:induction false} DrainLeavesBlocked(q: seq<Info>, mask: set<nat>, rs: seq<Reaction>)
    ensures var d := Drain(q, mask, rs); AllBlocked(d.left, d.mask)
    decreases |rs|, |q|
  {
    var k := First(q, Unblocked(mask));
    if k < |q| {
      hide AllBlocked, First;
      var q1 := Without(q, k);
      if rs == [] {
        DrainLeavesBlocked(q1, mask, []);
      } else {
        DrainLeavesBlocked(q1 + Admitted(q1, rs[0].queued), rs[0].mask, rs[1..]);
      }
    }
  }

  /** When handlers neither queue signals nor change the mask, exactly the unblocked signals are
      delivered, oldest first, and exactly the blocked ones are left, in their order. */
  lemma {:induction false} DrainQuietly(q: seq<Info>, mask: set<nat>)
    ensures Drain(q, mask, []) == Drained(Select(q, Unblocked(mask)), [], Reject(q, Unblocked(mask)), mask)
    decreases |q|
  {
    var k := First(q, Unblocked(mask));
    if k < |q| {
      TakeFirst(q, Unblocked(mask), k);
      DrainQuietly(Without(q, k), mask);
    } else {
      SelectNone(q, Unblocked(mask));
    }
  }

  /** With such handlers, of each number all signals are delivered, or none when the mask holds
      it back. */
  lemma DrainByMask(q: seq<Info>, mask: set<nat>, sig: nat)
    requires 1 <= sig <= 32
    ensures var d := Drain(q, mask, []);
            if sig in mask then Select(d.delivered, {sig}) == [] && Select(d.left, {sig}) == Select(q, {sig})
            else Select(d.delivered, {sig}) == Select(q, {sig}) && Select(d.left, {sig}) == []
  {
    DrainQuietly(q, mask);
    SelectOne(q, Unblocked(mask), sig);
  }

  lemma {:induction false} SelectOne(q: seq<Info>, sigs: set<nat>, sig: nat)
    ensures Select(Select(q, sigs), {sig}) == if sig in sigs then Select(q, {sig}) else []
    ensures Select(Reject(q, sigs), {sig}) == if sig in sigs then [] else Select(q, {sig})
  {
    if q != [] {
      SelectOne(q[1..], sigs, sig);
      if q[0].signo in sigs {
        SelectFirst(q[0], Select(q[1..], sigs), {sig});
        assert Select(q, sigs) == [q[0]] + Select(q[1..], sigs) && Reject(q, sigs) == Reject(q[1..], sigs);
      } else {
        SelectFirst(q[0], Reject(q[1..], sigs), {sig});
        assert Select(q, sigs) == Select(q[1..], sigs) && Reject(q, sigs) == [q[0]] + Reject(q[1..], sigs);
      }
    }
  }

  lemma SelectSingle(info: Info, sigs: set<nat>)
    ensures Select([info], sigs) == if info.signo in sigs then [info] else []
  {
  }

  lemma SelectFirst(first: Info, rest: seq<Info>, sigs: set<nat>)
    ensures Select([first] + rest, sigs) == (if first.signo in sigs then [first] else []) + Select(rest, sigs)
  {
    assert ([first] + rest)[1..] == rest;
  }

  // ---- the queue in the array ----

  /** How the array stands for a queue: the signals, oldest first; the slot each is in;
      the order number each was given, before wrapping; and the last one given. */
  datatype Index = Index(fifo: seq<Info>, slots: seq<nat>, stamps: seq<int>, last: int)

  ghost predicate Represents(items: seq<Item>, x: Index) {
    && |items| == SIGQUEUE_MAX
    && |x.slots| == |x.stamps| == |x.fifo|
    && (forall k | 0 <= k < |x.fifo| :: Holds(items, x, k))
    && (forall j, k | 0 <= j < k < |x.fifo| :: x.slots[j] != x.slots[k])
    && (forall j, k | 0 <= j < k < |x.fifo| :: x.stamps[j] < x.stamps[k])
    && (forall i | 0 <= i < |items| && items[i].info.signo != 0 :: i in x.slots)
  }

  /** The k-th signal is where the index says, and was queued less than 2^31 signals ago. */
  ghost predicate Holds(items: seq<Item>, x: Index, k: nat)
    requires |x.slots| == |x.stamps| == |x.fifo| && k < |x.fifo|
  {
    && x.slots[k] < |items|
    && x.fifo[k].signo != 0
    && items[x.slots[k]] == Item(x.fifo[k], Wrap(x.stamps[k]))
    && x.stamps[k] <= x.last < x.stamps[k] + 0x8000_0000
  }

  /** n more order numbers may be given out before the oldest signal has gone. */
  ghost predicate OrdersLeft(x: Index, n: nat) {
    && n < 0x8000_0000
    && (|x.stamps| > 0 ==> x.last + n < x.stamps[0] + 0x8000_0000)
  }

  ghost function Append(x: Index, info: Info, i: nat): Index {
    if info.signo == 0 then x.(last := x.last + 1)
    else Index(x.fifo + [info], x.slots + [i], x.stamps + [x.last + 1], x.last + 1)
  }

  lemma AppendKeeps(items: seq<Item>, x: Index, info: Info, i: nat)
    requires Represents(items, x) && OrdersLeft(x, 1)
    requires i < |items| && items[i].info.signo == 0
    ensures Represents(items[i := Item(info, Wrap(x.last + 1))], Append(x, info, i))
  {
    var items', x' := items[i := Item(info, Wrap(x.last + 1))], Append(x, info, i);
    forall k | 0 <= k < |x.fifo| ensures x.slots[k] != i && x.stamps[k] < x.last + 1 && Holds(items', x', k) {
      assert Holds(items, x, k);
    }
    forall j | 0 <= j < |items'| && items'[j].info.signo != 0 ensures j in x'.slots {
      if j == i {
        assert x'.slots[|x.slots|] == i;
      }
    }
  }

  ghost function Remove(x: Index, k: nat): Index
    requires |x.slots| == |x.stamps| == |x.fifo| && k < |x.fifo|
  {
    Index(Without(x.fifo, k), Without(x.slots, k), Without(x.stamps, k), x.last)
  }

  lemma RemoveKeeps(items: seq<Item>, x: Index, k: nat, order: int)
    requires Represents(items, x) && k < |x.fifo|
    ensures Holds(items, x, k)
    ensures forall info: Info | info.signo == 0 ::
              Represents(items[x.slots[k] := Item(info, order)], Remove(x, k))
  {
    assert Holds(items, x, k);
    forall info: Info | info.signo == 0
      ensures Represents(items[x.slots[k] := Item(info, order)], Remove(x, k))
    {
      var items', x' := items[x.slots[k] := Item(info, order)], Remove(x, k);
      forall j | 0 <= j < |x'.fifo| ensures Holds(items', x', j) {
        assert Holds(items, x, if j < k then j else j + 1);
      }
      forall i | 0 <= i < |items'| && items'[i].info.signo != 0 ensures i in x'.slots {
        var j :| 0 <= j < |x.slots| && x.slots[j] == i;
        assert x'.slots[if j < k then j else j - 1] == i;
      }
    }
  }

  /** Between two signals in the array, the order test goes by age. */
  lemma BeforeIsOlder(items: seq<Item>, x: Index, j: nat, k: nat)
    requires Represents(items, x) && j < |x.fifo| && k < |x.fifo|
    ensures Before(Wrap(x.stamps[j]), Wrap(x.stamps[k])) <==> j < k
  {
    assert Holds(items, x, j) && Holds(items, x, k);
    if j < k {
      OrderExactly(x.stamps[j], x.stamps[k]);
    } else if k < j {
      OrderExactly(x.stamps[k], x.stamps[j]);
    }
  }

  /** The slots are all taken exactly when the queue has its full length. */
  lemma FullExactly(items: seq<Item>, x: Index)
    requires Represents(items, x)
    ensures |x.fifo| <= SIGQUEUE_MAX
    ensures |x.fifo| == SIGQUEUE_MAX <==> forall i | 0 <= i < |items| :: items[i].info.signo != 0
  {
    forall k | 0 <= k < |x.fifo| ensures x.slots[k] < SIGQUEUE_MAX && items[x.slots[k]].info.signo != 0 {
      assert Holds(items, x, k);
    }
    AllTaken(x.slots, SIGQUEUE_MAX);
    if |x.fifo| == SIGQUEUE_MAX {
      forall i | 0 <= i < |items| ensures items[i].info.signo != 0 {
        assert i in x.slots;
      }
    }
    if forall i | 0 <= i < |items| :: items[i].info.signo != 0 {
      assert forall i: nat | i < SIGQUEUE_MAX :: items[i].info.signo != 0;
    }
  }

  /** How many signals the handlers queue. */
  function Total(rs: seq<Reaction>): nat {
    if rs == [] then 0 else |rs[0].queued| + Total(rs[1..])
  }

  /** After these deliveries, what d still does leads to what all does. */
  ghost predicate Follows(delivered: seq<Info>, d: Drained, all: Drained) {
    delivered + d.delivered == all.delivered && d.left == all.left && d.mask == all.mask
  }

  lemma FirstUnique(q: seq<Info>, sigs: set<nat>, k: nat)
    requires IsFirst(q, sigs, k) || (k == |q| && forall j | 0 <= j < |q| :: q[j].signo !in sigs)
    ensures First(q, sigs) == k
  {
  }

  lemma AdmittedNext(q: seq<Info>, infos: seq<Info>)
    requires infos != []
    ensures q + Admitted(q, infos) ==
            if |q| < SIGQUEUE_MAX && infos[0].signo != 0 then q + [infos[0]] + Admitted(q + [infos[0]], infos[1..])
            else q + Admitted(q, infos[1..])
  {
  }

  /** One turn of the drain loop. */
  lemma DrainNext(q: seq<Info>, mask: set<nat>, rs: seq<Reaction>, done: seq<Info>, all: Drained)
    requires First(q, Unblocked(mask)) < |q| && Follows(done, Drain(q, mask, rs), all)
    ensures var k := First(q, Unblocked(mask));
            var q1 := Without(q, k);
            Follows(done + [q[k]],
                    if rs == [] then Drain(q1, mask, []) else Drain(q1 + Admitted(q1, rs[0].queued), rs[0].mask, rs[1..]), all)
  {
    hide First, Unblocked, Admitted;
    var k := First(q, Unblocked(mask));
    var q1 := Without(q, k);
    var d := if rs == [] then Drain(q1, mask, []) else Drain(q1 + Admitted(q1, rs[0].queued), rs[0].mask, rs[1..]);
    assert done + ([q[k]] + d.delivered) == done + [q[k]] + d.delivered;
  }

  lemma DrainDone(q: seq<Info>, mask: set<nat>, rs: seq<Reaction>, done: seq<Info>, all: Drained)
    requires Follows(done, Drain(q, mask, rs), all) && First(q, Unblocked(mask)) == |q|
    ensures done == all.delivered && q == all.left && mask == all.mask
  {
  }

  lemma DrainStarts(q: seq<Info>, mask: set<nat>, rs: seq<Reaction>)
    ensures rs[0..] == rs && Follows([], Drain(q, mask, rs), Drain(q, mask, rs))
  {
  }

  lemma TotalNext(rs: seq<Reaction>, k: nat)
    requires k < |rs|
    ensures rs[k..] != [] && rs[k..][0] == rs[k] && rs[k..][1..] == rs[k + 1..]
    ensures Total(rs[k..]) == |rs[k].queued| + Total(rs[k + 1..])
  {
  }

  /** Removing a signal leaves no fewer order numbers. */
  lemma RemoveLeaves(items: seq<Item>, x: Index, k: nat, n: nat)
    requires Represents(items, x) && k < |x.fifo| && OrdersLeft(x, n)
    ensures OrdersLeft(Remove(x, k), n)
  {
  }

  class Queue {
    var items: array<Item>
    var lastOrder: int
    var procmask: set<nat>
    ghost var x: Index

    ghost predicate Valid()
      reads this, items
    {
      Represents(items[..], x) && lastOrder == Wrap(x.last)
    }

    constructor ()
      ensures Valid() && x.fifo == [] && procmask == {} && fresh(items)
    {
      items := new Item[SIGQUEUE_MAX](_ => Item(Info(0, 0, 0), 0));
      lastOrder, procmask := 0, {};
      x := Index([], [], [], 0);
    }

    /**
     sigqueue_info. It fails exactly when the queue is full. An info with signal
     number 0 is accepted and lost, since its slot still looks free.
     */
    method Enqueue(info: Info) returns (ret: int)
      requires Valid() && OrdersLeft(x, 1)
      modifies this`lastOrder, this`x, items
      ensures Valid()
      ensures forall n: nat :: OrdersLeft(old(x), n + 1) ==> OrdersLeft(x, n)
      ensures ret == if |old(x.fifo)| == SIGQUEUE_MAX then -1 else 0
      ensures x.fifo == if ret == 0 && info.signo != 0 then old(x.fifo) + [info] else old(x.fifo)
    {
      hide Holds;
      FullExactly(items[..], x);
      WrapDifference(x.last, -1);
      var nextOrder := Wrap(lastOrder + 1);
      for i := 0 to SIGQUEUE_MAX
        invariant items[..] == old(items[..]) && x == old(x) && lastOrder == old(lastOrder)
        invariant forall j | 0 <= j < i :: items[..][j].info.signo != 0
      {
        if items[i].info.signo == 0 {
          AppendKeeps(items[..], x, info, i);
          assert items[..][i].info.signo == 0;
          items[i] := Item(info, nextOrder);
          lastOrder := nextOrder;
          x := Append(x, info, i);
          assert items[..] == old(items[..])[i := Item(info, nextOrder)];
          return 0;
        }
      }
      return -1;
    }

    /** The scan of signal_dequeue: the slot of the oldest signal of the set, or -1. */
    method FindOldest(sigs: set<nat>) returns (chosen: int, ghost k: nat)
      requires Valid()
      ensures -1 <= chosen < SIGQUEUE_MAX
      ensures chosen == -1 ==> forall j | 0 <= j < |x.fifo| :: x.fifo[j].signo !in sigs
      ensures chosen != -1 ==> IsFirst(x.fifo, sigs, k) && x.slots[k] == chosen
    {
      chosen, k := -1, 0;
      var order := -1;
      for i := 0 to SIGQUEUE_MAX
        invariant -1 <= chosen < i
        invariant chosen == -1 ==> forall j | 0 <= j < |x.fifo| && x.slots[j] < i :: x.fifo[j].signo !in sigs
        invariant chosen != -1 ==> k < |x.fifo| && x.slots[k] == chosen && order == Wrap(x.stamps[k])
        invariant chosen != -1 ==> x.fifo[k].signo in sigs
        invariant chosen != -1 ==> forall j | 0 <= j < |x.fifo| && x.slots[j] < i && x.fifo[j].signo in sigs :: k <= j
      {
        var candidate := items[i].info.signo != 0 && items[i].info.signo in sigs;
        ghost var j := PlaceOf(items[..], x, i);
        if candidate {
          if chosen != -1 {
            BeforeIsOlder(items[..], x, j, k);
          }
          if chosen == -1 || Before(items[i].order, order) {
            chosen, order, k := i, items[i].order, j;
          }
        }
      }
      assert forall j | 0 <= j < |x.fifo| :: Holds(items[..], x, j) && x.slots[j] < SIGQUEUE_MAX;
    }

    /**
     signal_dequeue: removes the oldest signal of the set, wherever it is in the array,
     or fails when there is none.
     */
    method Dequeue(sigs: set<nat>) returns (ret: int, info: Info, ghost k: nat)
      requires Valid()
      modifies this`x, items
      ensures Valid() && (ret == 0 || ret == -1)
      ensures ret == -1 ==> x == old(x) && forall j | 0 <= j < |x.fifo| :: x.fifo[j].signo !in sigs
      ensures ret == 0 ==> IsFirst(old(x.fifo), sigs, k) && info == old(x.fifo)[k] && x == Remove(old(x), k)
    {
      var chosen;
      chosen, k := FindOldest(sigs);
      if chosen == -1 {
        return -1, Info(0, 0, 0), k;
      }
      info := items[chosen].info;
      RemoveKeeps(items[..], x, k, items[chosen].order);
      items[chosen] := items[chosen].(info := info.(signo := 0));
      assert items[..] == old(items[..])[chosen := Item(info.(signo := 0), old(items[chosen].order))];
      x := Remove(x, k);
      ret := 0;
    }

    /** A handler queues signals with sigqueue_info. */
    method React(infos: seq<Info>, ghost more: nat)
      requires Valid() && OrdersLeft(x, |infos| + more)
      modifies this`lastOrder, this`x, items
      ensures Valid() && OrdersLeft(x, more)
      ensures x.fifo == old(x.fifo) + Admitted(old(x.fifo), infos)
    {
      FullExactly(items[..], x);
      for i := 0 to |infos|
        invariant Valid() && OrdersLeft(x, |infos| - i + more) && |x.fifo| <= SIGQUEUE_MAX
        invariant x.fifo + Admitted(x.fifo, infos[i..]) == old(x.fifo) + Admitted(old(x.fifo), infos)
      {
        ghost var q := x.fifo;
        AdmittedNext(q, infos[i..]);
        assert infos[i..][1..] == infos[i + 1..];
        var ret := Enqueue(infos[i]);
      }
    }

    /**
     pend_sv_handler, with handlers that react in any way, finitely often: the drain loop on
     the queue that the array stands for.
     */
    method PendSvHandler(rs: seq<Reaction>) returns (delivered: seq<Info>)
      requires Valid() && OrdersLeft(x, Total(rs))
      modifies this, items
      ensures Valid() && items == old(items)
      ensures var d := Drain(old(x.fifo), old(procmask), rs);
              delivered == d.delivered && x.fifo == d.left && procmask == d.mask
    {
      hide Drain, Admitted, First, Follows, Represents, Total, OrdersLeft;
      delivered := [];
      ghost var all := Drain(x.fifo, procmask, rs);
      var k := 0;
      DrainStarts(x.fifo, procmask, rs);
      while true
        invariant Valid() && items == old(items)
        invariant k <= |rs| && OrdersLeft(x, Total(rs[k..]))
        invariant Follows(delivered, Drain(x.fifo, procmask, rs[k..]), all)
        decreases |rs| - k, |x.fifo|
      {
        ghost var before, y, contents := x.fifo, x, items[..];
        var ret, info, place := Dequeue(Unblocked(procmask));
        if ret == -1 {
          FirstUnique(before, Unblocked(procmask), |before|);
          DrainDone(before, procmask, rs[k..], delivered, all);
          return;
        }
        FirstUnique(before, Unblocked(procmask), place);
        DrainNext(before, procmask, rs[k..], delivered, all);
        RemoveLeaves(contents, y, place, Total(rs[k..]));
        delivered := delivered + [info];
        if k < |rs| {
          TotalNext(rs, k);
          React(rs[k].queued, Total(rs[k + 1..]));
          procmask := rs[k].mask;
          k := k + 1;
        }
      }
    }

    /** sigpending: the signals that are queued and blocked. */
    method SigPending() returns (pending: set<nat>)
      requires Valid()
      ensures forall sig: nat :: sig in pending <==> sig in procmask && exists k :: 0 <= k < |x.fifo| && x.fifo[k].signo == sig
    {
      pending := {};
      for i := 0 to SIGQUEUE_MAX
        invariant forall sig: nat :: sig in pending <==>
          sig in procmask && exists k :: 0 <= k < |x.fifo| && x.fifo[k].signo == sig && x.slots[k] < i
      {
        var sig := items[i].info.signo;
        ghost var k := PlaceOf(items[..], x, i);
        if sig != 0 && sig in procmask {
          pending := pending + {sig};
        }
      }
      assert forall k | 0 <= k < |x.fifo| :: Holds(items[..], x, k) && x.slots[k] < SIGQUEUE_MAX;
    }
  }

  /** The place in the queue of the signal in slot i. */
  ghost function PlaceOf(items: seq<Item>, x: Index, i: nat): (k: nat)
    requires Represents(items, x) && i < |items|
    ensures items[i].info.signo != 0 ==> k < |x.fifo| && x.slots[k] == i && Holds(items, x, k)
    ensures items[i].info.signo == 0 ==> forall j | 0 <= j < |x.fifo| :: x.slots[j] != i
  {
    if items[i].info.signo == 0 then
      assert forall j | 0 <= j < |x.fifo| :: Holds(items, x, j) && x.slots[j] != i;
      0
    else
      var k :| 0 <= k < |x.slots| && x.slots[k] == i;
      assert Holds(items, x, k);
      k
  }
}
