/**
 The clocks kept by the SysTick interrupt (src/clock_gettime_systick.c). Time goes on
 between any two accesses: TimePasses is any number of counts and of ticks, a tick being
 the reload of the counter together with sys_tick_handler. The two words of a time are
 accessed separately.
 */
module SystemClock {
  import opened Wrappers
  import opened Timespecs

  const SYSTICK_STEP := Timespec(0, 1_000_000)

  // ---- arithmetic of the fraction ----

  /** Counts in a tick period, for bus frequency freq. */
  function Counts(freq: nat): nat {
    freq / 1000
  }

  /** systick_fraction_to_timespec: nanoseconds since the last tick, from the counter. */
  function Fraction(freq: nat, counter: nat): int
    requires freq >= 1000
  {
    (Counts(freq) - counter) * (1_000_000_000 / freq)
  }

  /** The fraction grows as the counter counts down and never exceeds the period, whatever the
      frequency; so it fits 32 bits. Up to 1 GHz it is never zero. */
  lemma FractionInPeriod(freq: nat, c: nat, c': nat)
    requires freq >= 1000 && c' <= c < Counts(freq)
    ensures 0 <= Fraction(freq, c) <= Fraction(freq, c') <= 1_000_000
    ensures 0 < Fraction(freq, c) <==> freq <= 1_000_000_000
  {
    var a, b := Counts(freq), 1_000_000_000 / freq;
    PeriodCovers(freq);
    if b > 0 {
      MulMonotone(1, a - c, b);
    }
    MulMonotone(0, a - c, b);
    MulMonotone(a - c, a - c', b);
    MulMonotone(a - c', a, b);
  }

  lemma PeriodCovers(freq: nat)
    requires freq >= 1000
    ensures 1_000_000_000 / freq > 0 <==> freq <= 1_000_000_000
    ensures Counts(freq) * (1_000_000_000 / freq) <= 1_000_000
  {
    var a, b := Counts(freq), 1_000_000_000 / freq;
    assert 1000 * a <= freq && freq * b <= 1_000_000_000 < freq * b + freq;
    MulMonotone(1000 * a, freq, b);
    assert 1000 * a * b == 1000 * (a * b);
  }

  lemma MulMonotone(x: int, y: int, k: nat)
    requires x <= y
    ensures x * k <= y * k
  {
  }

  /** Of the time that counts take, at freq counts a second, the fraction misses less than a
      nanosecond for each. */
  lemma FractionIsTime(freq: nat, c: nat)
    requires freq >= 1000 && c < Counts(freq)
    ensures var n := Counts(freq) - c;
            Fraction(freq, c) * freq <= n * 1_000_000_000 < (Fraction(freq, c) + n) * freq
  {
    var n, b := Counts(freq) - c, 1_000_000_000 / freq;
    assert b * freq <= 1_000_000_000 < (b + 1) * freq;
    MulMonotone(b * freq, 1_000_000_000, n);
    MulMonotone(1_000_000_001, (b + 1) * freq, n);
    assert b * freq * n == n * b * freq && (b + 1) * freq * n == (n * b + n) * freq;
  }

  /** Instants, as tick numbers and counter values. */
  datatype Instant = Instant(tick: nat, counter: nat) {
    predicate NotAfter(i: Instant) {
      tick < i.tick || (tick == i.tick && counter >= i.counter)
    }
  }

  /** What a clock that showed start at tick 0 should show at an instant. */
  function Reading(freq: nat, start: int, i: Instant): int
    requires freq >= 1000
  {
    start + i.tick * 1_000_000 + Fraction(freq, i.counter)
  }

  /** Readings never decrease, in particular not from the end of one period into the next. */
  lemma ReadingsNeverDecrease(freq: nat, start: int, i: Instant, j: Instant)
    requires freq >= 1000 && i.counter < Counts(freq) && j.counter < Counts(freq)
    requires i.NotAfter(j)
    ensures Reading(freq, start, i) <= Reading(freq, start, j)
  {
    FractionInPeriod(freq, i.counter, if i.tick == j.tick then j.counter else i.counter);
    FractionInPeriod(freq, j.counter, j.counter);
  }

  // ---- the update flag ----

  /** timer_update_flag++, in 32 bits. */
  function Bump(flag: int): int {
    if flag == 0x7FFF_FFFF then -0x8000_0000 else flag + 1
  }

  /** timer_update_flag after the given number of ticks. */
  function Flag(ticks: nat): int {
    if ticks == 0 then 0 else Bump(Flag(ticks - 1))
  }

  lemma {:induction false} FlagWraps(t: nat)
    ensures Flag(t) == (t + 0x8000_0000) % 0x1_0000_0000 - 0x8000_0000
  {
    if t > 0 {
      FlagWraps(t - 1);
    }
  }

  /** Equal flags mean that no tick came in between, or some multiple of 2^32 of them. */
  lemma FlagsEqualExactly(t: nat, n: nat)
    ensures Flag(t) == Flag(t + n) <==> n % 0x1_0000_0000 == 0
  {
    FlagWraps(t);
    FlagWraps(t + n);
    SameRemainder(t + 0x8000_0000, n);
  }

  lemma SameRemainder(x: nat, n: nat)
    ensures x % 0x1_0000_0000 == (x + n) % 0x1_0000_0000 <==> n % 0x1_0000_0000 == 0
  {
    var r, m := x % 0x1_0000_0000, n % 0x1_0000_0000;
    var k := x / 0x1_0000_0000 + n / 0x1_0000_0000;
    assert x + n == r + m + k * 0x1_0000_0000;
    RemainderPeriodic(r + m, k);
  }

  lemma RemainderPeriodic(x: nat, k: nat)
    ensures (x + k * 0x1_0000_0000) % 0x1_0000_0000 == x % 0x1_0000_0000
  {
  }

  /** So, less than 2^32 ticks apart, equal flags mean that there was no tick. */
  lemma SameFlagNoTick(t: nat, n: nat)
    requires n < 0x1_0000_0000
    ensures Flag(t) == Flag(t + n) <==> n == 0
  {
    FlagsEqualExactly(t, n);
  }

  // ---- the clocks ----

  class Clock {
    const freq: nat
    var monotonic: Timespec
    var realtime: Timespec
    var updateFlag: int
    var counter: nat
    ghost var ticks: nat
    ghost const start: int // what the monotonic clock showed at tick 0
    ghost var realStart: int // what the other would have shown then, by its last setting

    ghost predicate Valid()
      reads this
    {
      && freq >= 1000
      && counter < Counts(freq)
      && updateFlag == Flag(ticks)
      && monotonic.Normal() && realtime.Normal()
      && monotonic.Nanos() == start + ticks * 1_000_000
      && realtime.Nanos() == realStart + ticks * 1_000_000
    }

    ghost function Now(): Instant
      reads this
    {
      Instant(ticks, counter)
    }

    ghost function Start(id: ClockId): int
      reads this
    {
      if id == CLOCK_MONOTONIC then start else realStart
    }

    /** Both clocks start from the same time, which is zero in the code. */
    constructor (freq: nat, boot: Timespec)
      requires freq >= 1000 && boot.Normal()
      ensures Valid()
      ensures this.freq == freq && monotonic == realtime == boot
    {
      this.freq := freq;
      monotonic, realtime, updateFlag, counter := boot, boot, 0, freq / 1000 - 1;
      ticks, start, realStart := 0, boot.Nanos(), boot.Nanos();
    }

    /** sys_tick_handler, as the counter is reloaded. */
    method Tick()
      requires Valid()
      modifies this
      ensures Valid() && Now() == Instant(old(ticks) + 1, Counts(freq) - 1) && realStart == old(realStart)
      ensures monotonic.Nanos() == old(monotonic).Nanos() + 1_000_000
      ensures realtime.Nanos() == old(realtime).Nanos() + 1_000_000
    {
      counter := freq / 1000 - 1;
      NanosOf(monotonic, SYSTICK_STEP);
      NanosOf(realtime, SYSTICK_STEP);
      monotonic := Add(monotonic, SYSTICK_STEP);
      realtime := Add(realtime, SYSTICK_STEP);
      updateFlag := Bump(updateFlag);
      ticks := ticks + 1;
    }

    /** Any time up to 2^30 ticks, twelve days, passes; a tick moves both clocks on by a
        millisecond, and nothing else changes them. */
    method TimePasses()
      requires Valid()
      modifies this
      ensures Valid() && old(Now()).NotAfter(Now())
      ensures ticks < old(ticks) + 0x4000_0000 && realStart == old(realStart)
      ensures monotonic.Nanos() == old(monotonic).Nanos() + (ticks - old(ticks)) * 1_000_000
      ensures realtime.Nanos() == old(realtime).Nanos() + (ticks - old(ticks)) * 1_000_000
      ensures ticks == old(ticks) ==> monotonic == old(monotonic) && realtime == old(realtime)
    {
      var counts: nat, period: nat := *, 0;
      while counts > 0
        invariant Valid() && old(Now()).NotAfter(Now()) && realStart == old(realStart)
        invariant ticks == old(ticks) + period && period < 0x4000_0000
        invariant ticks == old(ticks) ==> monotonic == old(monotonic) && realtime == old(realtime)
      {
        if counter > 0 {
          counter := counter - 1;
        } else {
          if period + 1 < 0x4000_0000 {
            Tick();
            period := period + 1;
          }
        }
        counts := counts - 1;
      }
    }

    function Word(id: ClockId): Timespec
      reads this
    {
      if id == CLOCK_MONOTONIC then monotonic else realtime
    }

    /**
     clock_gettime, followed for the given number of attempts. When it gets a value, both
     words and the fraction come from one tick period, the last one: the value is that of
     the clock, which moves with the ticks from where it was set, and the fraction that of a
     counter value seen during the call.
     */
    method GetTime(id: ClockId, attempts: nat) returns (r: Option<Timespec>, ghost seen: Instant)
      requires Valid()
      modifies this
      ensures Valid() && old(Now()).NotAfter(seen) && seen.NotAfter(Now()) && realStart == old(realStart)
      ensures id == CLOCK_OTHER ==> r == None
      ensures id != CLOCK_OTHER && r == None ==> ticks >= old(ticks) + attempts
      ensures r.Some? ==> && seen.tick == ticks && seen.counter < Counts(freq)
                          && r.value.Normal()
                          && r.value.Nanos() == Word(id).Nanos() + Fraction(freq, seen.counter)
                          && r.value.Nanos() == Reading(freq, Start(id), seen)
    {
      r, seen := None, Now();
      if id == CLOCK_OTHER {
        return; // EINVAL
      }
      for i := 0 to attempts
        invariant Valid() && old(Now()).NotAfter(seen) && seen.NotAfter(Now()) && realStart == old(realStart)
        invariant ticks >= old(ticks) + i
      {
        var tp, fraction, same;
        tp, fraction, same, seen := Attempt(id);
        if same {
          FractionInPeriod(freq, fraction, fraction);
          var ns := (freq / 1000 - fraction) * (1_000_000_000 / freq);
          NanosOf(tp, Timespec(0, ns));
          return Some(Add(tp, Timespec(0, ns))), seen;
        }
      }
    }

    /** One turn of the retry loop: flag, seconds, nanoseconds, counter, flag. */
    method Attempt(id: ClockId) returns (tp: Timespec, fraction: nat, same: bool, ghost seen: Instant)
      requires Valid()
      modifies this
      ensures Valid() && old(Now()).NotAfter(seen) && seen.NotAfter(Now()) && realStart == old(realStart)
      ensures fraction == seen.counter < Counts(freq)
      ensures same <==> ticks == old(ticks)
      ensures same ==> tp == Word(id)
    {
      var flagBefore := updateFlag;
      TimePasses();
      var sec := Word(id).sec;
      TimePasses();
      var nsec := Word(id).nsec;
      TimePasses();
      fraction, seen := counter, Now();
      TimePasses();
      var flagAfter := updateFlag;
      SameFlagNoTick(old(ticks), ticks - old(ticks));
      tp, same := Timespec(sec, nsec), flagBefore == flagAfter;
    }

    /**
     clock_settime. A tick between the two words would carry into a mixture of old and new;
     the loop then writes both again, so that in the end the clock shows tp.
     */
    method SetTime(id: ClockId, tp: Timespec, attempts: nat) returns (ret: int, done: bool)
      requires Valid()
      modifies this
      ensures Valid() && old(Now()).NotAfter(Now())
      ensures ret == if id == CLOCK_REALTIME && tp.Normal() then 0 else -1
      ensures ret == -1 ==> done && realtime == old(realtime) && realStart == old(realStart)
      ensures ret == 0 && done ==> realtime == tp
      ensures !done ==> ticks >= old(ticks) + attempts
    {
      if id != CLOCK_REALTIME || tp.nsec < 0 || tp.nsec >= 1_000_000_000 {
        return -1, true; // EINVAL
      }
      ret, done := 0, false;
      var left := attempts;
      while left > 0
        invariant Valid() && old(Now()).NotAfter(Now())
        invariant left <= attempts && ticks >= old(ticks) + (attempts - left)
      {
        var flagBefore := updateFlag;
        ghost var t := ticks;
        TimePasses();
        realtime := Timespec(tp.sec, realtime.nsec);
        realStart := realtime.Nanos() - ticks * 1_000_000;
        TimePasses();
        realtime := Timespec(realtime.sec, tp.nsec);
        realStart := realtime.Nanos() - ticks * 1_000_000;
        TimePasses();
        SameFlagNoTick(t, ticks - t);
        if flagBefore == updateFlag {
          return 0, true;
        }
        left := left - 1;
      }
    }

    /** Successive reads of either clock never decrease, as long as it is not set; and those of
        CLOCK_MONOTONIC never do, whatever the other clock is set to in between. */
    method ReadTwice(id: ClockId, setting: Option<Timespec>, attempts: nat) returns (r1: Option<Timespec>, r2: Option<Timespec>)
      requires Valid() && (id == CLOCK_REALTIME ==> setting == None)
      modifies this
      ensures Valid()
      ensures r1.Some? && r2.Some? ==> Compare(r2.value, r1.value) >= 0
    {
      ghost var i, j;
      r1, i := GetTime(id, attempts);
      if setting.Some? {
        var ret, done := SetTime(CLOCK_REALTIME, setting.value, attempts);
      } else {
        TimePasses();
      }
      r2, j := GetTime(id, attempts);
      if r1.Some? && r2.Some? {
        ReadingsNeverDecrease(freq, Start(id), i, j);
        LessByNanos(r2.value, r1.value);
      }
    }

    /** What is read after CLOCK_REALTIME has been set is the time set and that which has passed
        since: a millisecond for each tick, and the fraction. */
    method SetThenGet(tp: Timespec, attempts: nat) returns (r: Option<Timespec>, ghost at: nat, ghost seen: Instant)
      requires Valid() && tp.Normal()
      modifies this
      ensures Valid() && old(ticks) <= at <= seen.tick <= ticks
      ensures r.Some? ==> seen.counter < Counts(freq) && r.value.Nanos() == tp.Nanos() + (seen.tick - at) * 1_000_000 + Fraction(freq, seen.counter)
      ensures r.Some? ==> Compare(r.value, tp) >= 0
    {
      var ret, done := SetTime(CLOCK_REALTIME, tp, attempts);
      at := ticks;
      TimePasses();
      r, seen := GetTime(CLOCK_REALTIME, attempts);
      if !done {
        r := None;
      } else if r.Some? {
        FractionInPeriod(freq, seen.counter, seen.counter);
        LessByNanos(r.value, tp);
      }
    }
  }
}
