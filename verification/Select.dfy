/**
 Descriptor sets and pselect (src/select.c). What poll answers for each descriptor on each
 pass, and what the clock shows on it, are parameters.
 */
module Select {
  import opened Wrappers
  import opened Timespecs

  const FD_SETSIZE: nat := 20 // OPEN_MAX
  const MASKS: nat := (FD_SETSIZE + 31) / 32

  // ---- bit masks ----

  function Bit(k: nat): bv32
    requires k < 32
  {
    (1 as bv32) << k
  }

  predicate HasBit(w: bv32, k: nat)
    requires k < 32
  {
    w & Bit(k) != 0
  }

  function SetBit(w: bv32, k: nat): bv32
    requires k < 32
  {
    w | Bit(k)
  }

  function ClearBit(w: bv32, k: nat): bv32
    requires k < 32
  {
    w & !Bit(k)
  }

  lemma BitsDistinct(i: nat, j: nat)
    requires i < 32 && j < 32
    ensures Bit(i) != 0 && (i != j ==> Bit(i) & Bit(j) == 0)
  {
  }

  lemma BitwiseSame(w: bv32, b: bv32)
    requires b != 0
    ensures (w | b) & b != 0 && (w & !b) & b == 0
  {
  }

  lemma BitwiseSetOther(w: bv32, b: bv32, c: bv32)
    requires b & c == 0
    ensures (w | b) & c == w & c
  {
  }

  lemma BitwiseClearOther(w: bv32, b: bv32, c: bv32)
    requires b & c == 0
    ensures (w & !b) & c == w & c
  {
  }

  lemma WordSame(w: bv32, k: nat)
    requires k < 32
    ensures HasBit(SetBit(w, k), k) && !HasBit(ClearBit(w, k), k)
  {
    BitsDistinct(k, k);
    BitwiseSame(w, Bit(k));
  }

  lemma SetWordOther(w: bv32, k: nat, j: nat)
    requires k < 32 && j < 32 && j != k
    ensures HasBit(SetBit(w, k), j) == HasBit(w, j)
  {
    BitsDistinct(k, j);
    BitwiseSetOther(w, Bit(k), Bit(j));
  }

  lemma ClearWordOther(w: bv32, k: nat, j: nat)
    requires k < 32 && j < 32 && j != k
    ensures HasBit(ClearBit(w, k), j) == HasBit(w, j)
  {
    BitsDistinct(k, j);
    BitwiseClearOther(w, Bit(k), Bit(j));
  }

  /** fd is within the limits, and its bit is set. */
  predicate Has(mask: seq<bv32>, fd: int)
    requires |mask| == MASKS
  {
    0 <= fd < FD_SETSIZE && HasBit(mask[fd / 32], fd % 32)
  }

  ghost function Members(mask: seq<bv32>): set<nat>
    requires |mask| == MASKS
  {
    set fd: nat | fd < FD_SETSIZE && Has(mask, fd)
  }

  class FdSet {
    var mask: seq<bv32>

    ghost predicate Valid()
      reads this
    {
      |mask| == MASKS
    }

    ghost function Set(): set<nat>
      requires Valid()
      reads this
    {
      Members(mask)
    }

    method Zero()
      modifies this
      ensures Valid() && Set() == {}
    {
      mask := seq(MASKS, _ => 0);
    }

    predicate IsSet(fd: int)
      requires Valid()
      reads this
    {
      if 0 <= fd < FD_SETSIZE then HasBit(mask[fd / 32], fd % 32) else false
    }

    method Add(fd: int)
      requires Valid()
      modifies this
      ensures Valid() && Set() == if 0 <= fd < FD_SETSIZE then old(Set()) + {fd} else old(Set())
    {
      if 0 <= fd < FD_SETSIZE {
        Touches(mask, fd);
        mask := mask[fd / 32 := SetBit(mask[fd / 32], fd % 32)];
      }
    }

    method Clear(fd: int)
      requires Valid()
      modifies this
      ensures Valid() && Set() == old(Set()) - {fd}
    {
      if 0 <= fd < FD_SETSIZE {
        Touches(mask, fd);
        mask := mask[fd / 32 := ClearBit(mask[fd / 32], fd % 32)];
      }
    }
  }

  /** Setting or clearing the bit of fd adds or removes just fd. */
  lemma Touches(mask: seq<bv32>, fd: nat)
    requires |mask| == MASKS && fd < FD_SETSIZE
    ensures Members(mask[fd / 32 := SetBit(mask[fd / 32], fd % 32)]) == Members(mask) + {fd}
    ensures Members(mask[fd / 32 := ClearBit(mask[fd / 32], fd % 32)]) == Members(mask) - {fd}
  {
    var w, k := mask[fd / 32], fd % 32;
    var set_, clr := mask[fd / 32 := SetBit(w, k)], mask[fd / 32 := ClearBit(w, k)];
    WordSame(w, k);
    forall g: nat | g < FD_SETSIZE && g != fd ensures Has(set_, g) == Has(mask, g) && Has(clr, g) == Has(mask, g) {
      SetWordOther(w, k, g % 32);
      ClearWordOther(w, k, g % 32);
    }
    assert Has(set_, fd) && !Has(clr, fd);
  }

  // ---- one pass ----

  /** What poll says of a descriptor: whether it could be polled, and its conditions. */
  datatype Poll = Poll(ok: bool, readable: bool, writable: bool, exceptional: bool)

  datatype Sets = Sets(r: set<nat>, w: set<nat>, e: set<nat>) {
    function All(): set<nat> {
      r + w + e
    }
  }

  ghost function SetsOf(r: FdSet, w: FdSet, e: FdSet): Sets
    requires r.Valid() && w.Valid() && e.Valid()
    reads r, w, e
  {
    Sets(r.Set(), w.Set(), e.Set())
  }

  /** The sets restricted, below n, to the descriptors that are ready. */
  ghost function Restrict(s: Sets, n: int, poll: nat -> Poll): Sets {
    Sets(set fd | fd in s.r && (fd >= n || poll(fd).readable),
         set fd | fd in s.w && (fd >= n || poll(fd).writable),
         set fd | fd in s.e && (fd >= n || poll(fd).exceptional))
  }

  /** The descriptors below n that are in some set. */
  ghost function Below(s: Sets, n: int): set<nat> {
    set fd | fd in s.All() && fd < n
  }

  function Trim(s: set<nat>, fd: nat, keep: bool): set<nat> {
    if keep then s else s - {fd}
  }

  /** Restricting one descriptor further. */
  lemma RestrictNext(s: Sets, n: nat, poll: nat -> Poll)
    ensures var a, p := Restrict(s, n, poll), poll(n);
            Restrict(s, n + 1, poll) == Sets(Trim(a.r, n, p.readable), Trim(a.w, n, p.writable), Trim(a.e, n, p.exceptional))
  {
  }

  /** pselect_one. */
  method PselectOne(fd: nat, r: FdSet, w: FdSet, e: FdSet, p: Poll) returns (ret: int)
    requires r.Valid() && w.Valid() && e.Valid() && r != w && r != e && w != e
    modifies r, w, e
    ensures r.Valid() && w.Valid() && e.Valid()
    ensures ret == -1 <==> fd in old(SetsOf(r, w, e)).All() && !p.ok
    ensures ret == -1 ==> SetsOf(r, w, e) == old(SetsOf(r, w, e))
    ensures ret != -1 ==> var s := old(SetsOf(r, w, e));
              SetsOf(r, w, e) == Sets(Trim(s.r, fd, p.readable), Trim(s.w, fd, p.writable), Trim(s.e, fd, p.exceptional))
    ensures ret != -1 ==> ret == if fd in SetsOf(r, w, e).All() then 1 else 0
  {
    if r.IsSet(fd) || w.IsSet(fd) || e.IsSet(fd) {
      if !p.ok {
        return -1; // EBADF
      }
      if !p.readable {
        r.Clear(fd);
      }
      if !p.writable {
        w.Clear(fd);
      }
      if !p.exceptional {
        e.Clear(fd);
      }
      return if r.IsSet(fd) || w.IsSet(fd) || e.IsSet(fd) then 1 else 0;
    }
    return 0;
  }

  /** pselect_tentative: the sets restricted to what is ready, and how many descriptors are. */
  method PselectTentative(nfds: int, r: FdSet, w: FdSet, e: FdSet, poll: nat -> Poll) returns (ret: int)
    requires r.Valid() && w.Valid() && e.Valid() && r != w && r != e && w != e
    modifies r, w, e
    ensures r.Valid() && w.Valid() && e.Valid()
    ensures ret >= -1
    ensures ret == -1 <==> exists fd :: fd in Below(old(SetsOf(r, w, e)), nfds) && !poll(fd).ok
    ensures ret != -1 ==> SetsOf(r, w, e) == Restrict(old(SetsOf(r, w, e)), nfds, poll)
    ensures ret != -1 ==> ret == |Below(SetsOf(r, w, e), nfds)|
    ensures ret == 0 ==> Below(Restrict(old(SetsOf(r, w, e)), nfds, poll), nfds) == {}
  {
    ghost var s0 := SetsOf(r, w, e);
    ret := 0;
    var fd := 0;
    SweepStart(s0, poll);
    while fd < nfds
      invariant 0 <= fd && (fd <= nfds || fd == 0)
      invariant r.Valid() && w.Valid() && e.Valid()
      invariant Swept(SetsOf(r, w, e), s0, fd, poll, ret)
    {
      ghost var s1 := SetsOf(r, w, e);
      SweepNext(s1, s0, fd, poll, ret);
      var one := PselectOne(fd, r, w, e, poll(fd));
      if one == -1 {
        assert fd in Below(s0, nfds) && !poll(fd).ok;
        return -1;
      }
      ret := ret + one;
      fd := fd + 1;
    }
    SweepEnd(SetsOf(r, w, e), s0, fd, nfds, poll, ret);
  }

  /** After the descriptors below n: the sets are restricted, none failed, and ret counts them. */
  ghost predicate Swept(s: Sets, s0: Sets, n: int, poll: nat -> Poll, ret: int) {
    && s == Restrict(s0, n, poll)
    && (forall fd | fd in Below(s0, n) :: poll(fd).ok)
    && ret == |Below(s, n)|
  }

  lemma SweepStart(s0: Sets, poll: nat -> Poll)
    ensures Swept(s0, s0, 0, poll, 0)
  {
    assert Restrict(s0, 0, poll) == s0;
    assert Below(s0, 0) == {};
  }

  lemma SweepNext(s: Sets, s0: Sets, n: nat, poll: nat -> Poll, ret: int)
    requires Swept(s, s0, n, poll, ret)
    ensures n in s.All() <==> n in s0.All()
    ensures (n in s.All() ==> poll(n).ok) ==>
            var p := poll(n);
            var s' := Sets(Trim(s.r, n, p.readable), Trim(s.w, n, p.writable), Trim(s.e, n, p.exceptional));
            Swept(s', s0, n + 1, poll, ret + if n in s'.All() then 1 else 0)
  {
    RestrictNext(s0, n, poll);
    var p := poll(n);
    BelowNext(s, Sets(Trim(s.r, n, p.readable), Trim(s.w, n, p.writable), Trim(s.e, n, p.exceptional)), n);
  }

  lemma SweepEnd(s: Sets, s0: Sets, n: nat, nfds: int, poll: nat -> Poll, ret: int)
    requires Swept(s, s0, n, poll, ret) && (n == nfds || (n == 0 && nfds < 0))
    ensures Swept(s, s0, nfds, poll, ret)
    ensures ret == 0 ==> Below(Restrict(s0, nfds, poll), nfds) == {}
  {
    if nfds < 0 {
      assert Restrict(s0, nfds, poll) == Restrict(s0, 0, poll);
      assert Below(s, nfds) == Below(s, 0);
    }
  }

  /** Going one descriptor on counts that descriptor, if it is still there. */
  lemma BelowNext(s1: Sets, s2: Sets, n: nat)
    requires forall fd | fd != n :: fd in s1.All() <==> fd in s2.All()
    ensures |Below(s2, n + 1)| == |Below(s1, n)| + if n in s2.All() then 1 else 0
  {
    if n in s2.All() {
      assert Below(s2, n + 1) == Below(s1, n) + {n};
    } else {
      assert Below(s2, n + 1) == Below(s1, n);
    }
  }

  // ---- pselect ----

  /** The time until which pselect waits. */
  function Deadline(start: Timespec, timeout: Option<Timespec>): Timespec {
    if timeout == None then INFINITY else Timespecs.Add(start, timeout.value)
  }

  /** It has come exactly when the timeout has passed. */
  lemma DeadlineExactly(start: Timespec, timeout: Timespec, t: Timespec)
    requires start.Normal() && timeout.Normal() && t.Normal()
    ensures Compare(t, Deadline(start, Some(timeout))) >= 0 <==> t.Nanos() - start.Nanos() >= timeout.Nanos()
  {
    NanosOf(start, timeout);
    LessByNanos(t, Deadline(start, Some(timeout)));
  }

  /**
   pselect, with three different sets, followed for the given number of passes; pass k sees
   the clock at clock(k) and the answers poll(k). On the passes before the last, the deadline
   had not come, and nothing was ready: the sets are restored each time, so that the result
   speaks of the sets that were passed in.
   */
  method Pselect(nfds: int, r: FdSet, w: FdSet, e: FdSet, start: Timespec, timeout: Option<Timespec>,
                 clock: nat -> Timespec, poll: nat -> nat -> Poll, passes: nat)
      returns (ret: int, done: bool, ghost last: nat)
    requires r.Valid() && w.Valid() && e.Valid() && r != w && r != e && w != e
    modifies r, w, e
    ensures r.Valid() && w.Valid() && e.Valid()
    ensures !done ==> SetsOf(r, w, e) == old(SetsOf(r, w, e)) && last == passes
    ensures Waited(old(SetsOf(r, w, e)), nfds, Deadline(start, timeout), clock, poll, last)
    ensures done && ret == -1 ==> exists fd :: fd in Below(old(SetsOf(r, w, e)), nfds) && !poll(last)(fd).ok
    ensures done && ret != -1 ==> SetsOf(r, w, e) == Restrict(old(SetsOf(r, w, e)), nfds, poll(last))
    ensures done && ret != -1 ==> ret == |Below(SetsOf(r, w, e), nfds)|
    ensures done && ret == 0 ==> Compare(clock(last), Deadline(start, timeout)) >= 0
  {
    var tend := if timeout == None then INFINITY else Timespecs.Add(start, timeout.value);
    var rIn, wIn, eIn := r.mask, w.mask, e.mask;
    ghost var s0 := SetsOf(r, w, e);
    ret, done, last := 0, false, 0;
    var k := 0;
    while k < passes
      invariant 0 <= k <= passes && last == k
      invariant r.mask == rIn && w.mask == wIn && e.mask == eIn
      invariant SetsOf(r, w, e) == s0
      invariant Waited(s0, nfds, tend, clock, poll, k)
    {
      var tcurrent := clock(k);
      ret := PselectTentative(nfds, r, w, e, poll(k));
      if ret != 0 {
        return ret, true, k;
      }
      if Compare(tcurrent, tend) >= 0 {
        return ret, true, k;
      }
      r.mask, w.mask, e.mask := rIn, wIn, eIn;
      k := k + 1;
      last := k;
    }
  }

  /** On each of the first n passes nothing was ready, and the deadline had not come. */
  ghost predicate Waited(s0: Sets, nfds: int, tend: Timespec, clock: nat -> Timespec, poll: nat -> nat -> Poll, n: nat) {
    forall k: nat | k < n :: Compare(clock(k), tend) < 0 && Below(Restrict(s0, nfds, poll(k)), nfds) == {}
  }

  /** Without a timeout, pselect never returns 0, as long as the clock's seconds fit 31 bits. */
  lemma NoTimeoutNoZero(start: Timespec, t: Timespec)
    requires t.Normal() && t.sec <= INT_MAX
    ensures Compare(t, Deadline(start, None)) < 0
  {
    InfinityIsLast(t);
  }
}
