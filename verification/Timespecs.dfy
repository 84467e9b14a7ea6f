/**
 Seconds-and-nanoseconds arithmetic (src/timespec.c). Fields are unbounded
 integers: a computation whose seconds leave the 32-bit range is not modelled.
 */
module Timespecs {

  const INT_MAX: int := 0x7FFF_FFFF

  /** The two clocks there are, and anything else. */
  datatype ClockId = CLOCK_MONOTONIC | CLOCK_REALTIME | CLOCK_OTHER

  datatype Timespec = Timespec(sec: int, nsec: int) {
    /** The range the comment in timespec_diff assumes for tv_nsec. */
    predicate Normal() {
      0 <= nsec < 1_000_000_000
    }

    /** The instant denoted, in nanoseconds. */
    function Nanos(): int {
      sec * 1_000_000_000 + nsec
    }

    /** Earlier than t, for times in range. */
    predicate Less(t: Timespec) {
      sec < t.sec || (sec == t.sec && nsec < t.nsec)
    }
  }

  const ZERO := Timespec(0, 0)
  const INFINITY := Timespec(INT_MAX, INT_MAX)

  /** timespec_add. timespec_incr is x := Add(x, step). */
  function Add(t1: Timespec, t2: Timespec): (dst: Timespec)
    ensures t1.Normal() && t2.Normal() ==> dst.Normal()
  {
    var sec, nsec := t1.sec + t2.sec, t1.nsec + t2.nsec;
    if nsec >= 1_000_000_000 then Timespec(sec + 1, nsec - 1_000_000_000) else Timespec(sec, nsec)
  }

  /** The difference timespec_diff stores through its last argument. */
  function Diff(to: Timespec, from: Timespec): (diff: Timespec)
    ensures to.Normal() && from.Normal() ==> diff.Normal()
  {
    var sec, nsec := to.sec - from.sec, to.nsec - from.nsec;
    if nsec < 0 then Timespec(sec - 1, nsec + 1_000_000_000) else Timespec(sec, nsec)
  }

  /** The int timespec_diff returns: its sign orders the two times. */
  function Compare(to: Timespec, from: Timespec): (r: int)
    ensures to.Normal() && from.Normal() ==> (r < 0 <==> to.Less(from))
    ensures to.Normal() && from.Normal() ==> (r == 0 <==> to == from)
    ensures to.Normal() && from.Normal() ==> (r > 0 <==> from.Less(to))
  {
    var diff := Diff(to, from);
    if diff.sec == 0 then diff.nsec else diff.sec
  }

  /** Sums and differences are those of the instants. */
  lemma NanosOf(t1: Timespec, t2: Timespec)
    ensures Add(t1, t2).Nanos() == t1.Nanos() + t2.Nanos()
    ensures Diff(t1, t2).Nanos() == t1.Nanos() - t2.Nanos()
  {
  }

  /** In range, the order is that of the instants, and equal instants are equal times. */
  lemma LessByNanos(t1: Timespec, t2: Timespec)
    requires t1.Normal() && t2.Normal()
    ensures t1.Less(t2) <==> t1.Nanos() < t2.Nanos()
    ensures t1 == t2 <==> t1.Nanos() == t2.Nanos()
  {
  }

  lemma ZeroNanos(t: Timespec)
    requires t.Normal()
    ensures t == ZERO <==> t.Nanos() == 0
  {
  }

  /** A difference is not positive exactly when the first time is not the later one. */
  lemma DiffSign(to: Timespec, from: Timespec)
    requires to.Normal() && from.Normal()
    ensures Compare(Diff(to, from), ZERO) <= 0 <==> !from.Less(to)
  {
  }

  /** TIMESPEC_INFINITY has tv_nsec out of range, yet it still compares as later
      than every time with a 31-bit number of seconds. */
  lemma InfinityIsLast(t: Timespec)
    requires t.Normal() && t.sec <= INT_MAX
    ensures Compare(t, INFINITY) < 0 < Compare(INFINITY, t)
  {
  }
}
