/**
 The timer table and its scheduler (src/timers.c). The clocks stand still during a call,
 and notifying an expired timer does not touch the table; notified records the order.
 */
module Timers {
  import opened Timespecs

  const TIMER_MAX: nat := 32

  /** What the two clocks show. */
  datatype Clocks = Clocks(monotonic: Timespec, realtime: Timespec) {
    function Of(id: ClockId): Timespec {
      if id == CLOCK_MONOTONIC then monotonic else realtime
    }

    predicate Ok() {
      monotonic.Normal() && realtime.Normal() && monotonic.sec >= 0 && realtime.sec >= 0
    }
  }

  /** timerid 0 marks a free entry; value is the time of expiry, zero when disarmed. */
  datatype Timer = Timer(timerid: nat, clock: ClockId, value: Timespec, interval: Timespec) {
    predicate Normal() {
      value.Normal() && interval.Normal()
    }

    /** sys_timer_isarmed. */
    predicate Armed() {
      timerid != 0 && Compare(ZERO, value) != 0
    }

    /** sys_timer_time_to_expiration. */
    function Left(now: Clocks): Timespec {
      Diff(value, now.Of(clock))
    }

    /** The time of expiry has come. */
    ghost predicate Overdue(now: Clocks) {
      Armed() && !now.Of(clock).Less(value)
    }

    /** What timer_expired leaves: re-armed one interval from now, or disarmed. */
    function Expired(now: Clocks): Timer {
      this.(value := if Compare(interval, ZERO) > 0 then Add(now.Of(clock), interval) else ZERO)
    }
  }

  ghost predicate TableOk(ts: seq<Timer>) {
    |ts| == TIMER_MAX && forall i | 0 <= i < |ts| :: ts[i].Normal()
  }

  /** Timer i of the table comes before timer j: it expires earlier, or as early and is listed first. */
  ghost predicate Sooner(ts: seq<Timer>, now: Clocks, i: nat, j: nat)
    requires i < |ts| && j < |ts|
  {
    ts[i].Left(now).Less(ts[j].Left(now)) || (ts[i].Left(now) == ts[j].Left(now) && i < j)
  }

  ghost predicate IsNext(ts: seq<Timer>, now: Clocks, td: int) {
    if td == -1 then forall i | 0 <= i < |ts| :: !ts[i].Armed()
    else 0 <= td < |ts| && ts[td].Armed()
         && forall i | 0 <= i < |ts| && i != td && ts[i].Armed() :: Sooner(ts, now, td, i)
  }

  /** A timer is overdue from the moment at which its own clock shows its time of expiry. */
  lemma OverdueExactly(t: Timer, now: Clocks)
    requires t.Normal() && now.Ok() && t.clock != CLOCK_OTHER
    ensures var clock := if t.clock == CLOCK_MONOTONIC then now.monotonic else now.realtime;
            && (t.Overdue(now) <==> t.timerid != 0 && t.value != ZERO && clock.Nanos() >= t.value.Nanos())
            && t.Left(now).Nanos() == t.value.Nanos() - clock.Nanos()
  {
    LessByNanos(now.Of(t.clock), t.value);
    NanosOf(t.value, now.Of(t.clock));
  }

  /** An expired timer is not overdue any more: it is disarmed, or has a whole interval left. */
  lemma ExpiredNotOverdue(t: Timer, now: Clocks)
    requires t.Normal() && now.Ok()
    ensures t.Expired(now).Normal() && !t.Expired(now).Overdue(now)
    ensures t.Expired(now).Armed() <==> t.timerid != 0 && ZERO.Less(t.interval)
    ensures t.Expired(now).Armed() ==> t.Expired(now).Left(now) == t.interval
  {
  }

  datatype HwTimer = Stopped | Started(interval: Timespec)

  /** What a run of the scheduler does to the table ts0: the timers of batch have expired,
      in that order, and no other has changed. */
  ghost predicate Fired(ts: seq<Timer>, ts0: seq<Timer>, now: Clocks, batch: seq<nat>) {
    && |ts| == |ts0|
    && (forall k | 0 <= k < |batch| :: batch[k] < |ts0| && ts0[batch[k]].Overdue(now))
    && (forall j, k | 0 <= j < k < |batch| :: Sooner(ts0, now, batch[j], batch[k]))
    && (forall i | 0 <= i < |ts0| && i in batch :: ts[i] == ts0[i].Expired(now))
    && (forall i | 0 <= i < |ts0| && i !in batch :: ts[i] == ts0[i])
  }

  class Table {
    var timers: array<Timer>
    var hw: HwTimer
    var notified: seq<nat>

    ghost predicate Valid()
      reads this, timers
    {
      TableOk(timers[..])
    }

    /** sys_timer_iter: the next armed timer after td. */
    method Iter(td: int) returns (next: int)
      requires Valid() && -1 <= td < TIMER_MAX
      ensures next == -1 || (td < next < TIMER_MAX && timers[next].Armed())
      ensures forall i | td < i < TIMER_MAX && (next == -1 || i < next) :: !timers[i].Armed()
    {
      next := td + 1;
      while next < TIMER_MAX
        invariant td < next <= TIMER_MAX
        invariant forall i | td < i < next :: !timers[i].Armed()
      {
        if timers[next].Armed() {
          return;
        }
        next := next + 1;
      }
      next := -1;
    }

    /** sys_timer_expires_before. */
    predicate ExpiresBefore(now: Clocks, t1: nat, t2: nat)
      requires t1 < timers.Length && t2 < timers.Length
      reads this, timers
    {
      Compare(timers[t1].Left(now), timers[t2].Left(now)) < 0
    }

    /** sys_timer_next_expiring. */
    method NextExpiring(now: Clocks) returns (td: int)
      requires Valid() && now.Ok()
      ensures IsNext(timers[..], now, td)
    {
      td := -1;
      var titer := Iter(-1);
      while titer != -1
        invariant -1 <= titer < TIMER_MAX && -1 <= td < TIMER_MAX
        invariant titer != -1 ==> td < titer && timers[titer].Armed()
        invariant td == -1 ==> forall i | 0 <= i < TIMER_MAX && (titer == -1 || i < titer) :: !timers[i].Armed()
        invariant td != -1 ==> timers[td].Armed()
        invariant td != -1 ==> forall i | 0 <= i < TIMER_MAX && (titer == -1 || i < titer) && i != td && timers[i].Armed() ::
          Sooner(timers[..], now, td, i)
        decreases if titer == -1 then 0 else TIMER_MAX - titer
      {
        if td == -1 || ExpiresBefore(now, titer, td) {
          td := titer;
        }
        titer := Iter(titer);
      }
    }

    /** timer_expired: the notification, then re-arming or disarming. */
    method TimerExpired(now: Clocks, td: nat)
      requires Valid() && now.Ok() && td < TIMER_MAX
      modifies this`notified, timers
      ensures Valid()
      ensures timers[..] == old(timers[..])[td := old(timers[td]).Expired(now)]
      ensures notified == old(notified) + [td]
    {
      ExpiredNotOverdue(timers[td], now);
      notified := notified + [td];
      if Compare(timers[td].interval, ZERO) > 0 {
        timers[td] := timers[td].(value := Add(now.Of(timers[td].clock), timers[td].interval));
      } else {
        timers[td] := timers[td].(value := ZERO);
      }
    }

    /**
     sys_timers_manage. Exactly the overdue timers are notified, each once and in order of
     expiry; the periodic ones are armed again and the others disarmed; no armed timer is
     left overdue; and the hardware timer runs until the first of those still armed.
     */
    method Manage(now: Clocks) returns (ghost batch: seq<nat>)
      requires Valid() && now.Ok()
      modifies this`hw, this`notified, timers
      ensures Valid() && notified == old(notified) + batch
      ensures Fired(timers[..], old(timers[..]), now, batch)
      ensures forall i | 0 <= i < TIMER_MAX :: i in batch <==> old(timers[..])[i].Overdue(now)
      ensures forall i | 0 <= i < TIMER_MAX :: !timers[i].Overdue(now)
      ensures HwFollows(hw, timers[..], now)
    {
      batch := [];
      ghost var ts0 := timers[..];
      ghost var todo := set i: nat | i < TIMER_MAX && ts0[i].Overdue(now);
      while true
        invariant Valid() && notified == old(notified) + batch
        invariant Midway(timers[..], ts0, now, batch, todo)
        decreases todo
      {
        var td := NextExpiring(now);
        NextOverdue(timers[..], ts0, now, batch, todo, td);
        if td == -1 {
          hw := Stopped;
          return;
        }
        var toExpiration := timers[td].Left(now);
        DiffSign(timers[td].value, now.Of(timers[td].clock));
        if Compare(toExpiration, ZERO) > 0 {
          hw := Started(toExpiration);
          assert timers[..][td].Left(now) == toExpiration;
          return;
        }
        FireKeeps(timers[..], ts0, now, batch, todo, td);
        TimerExpired(now, td);
        batch, todo := batch + [td], todo - {td};
      }
    }

    /** timer_create: the first free entry, cleared, with one of the two clocks. */
    method Create(clock: ClockId) returns (timerid: nat)
      requires Valid()
      modifies timers
      ensures Valid()
      ensures timerid == 0 ==> && timers[..] == old(timers[..])
                               && (clock == CLOCK_OTHER || forall i | 0 <= i < TIMER_MAX :: timers[i].timerid != 0)
      ensures timerid != 0 ==> && clock != CLOCK_OTHER
                               && timerid <= TIMER_MAX && old(timers[..])[timerid - 1].timerid == 0
                               && (forall i | 0 <= i < timerid - 1 :: timers[i].timerid != 0)
                               && timers[..] == old(timers[..])[timerid - 1 := Timer(timerid, clock, ZERO, ZERO)]
    {
      if clock == CLOCK_OTHER {
        return 0; // EINVAL
      }
      for td := 0 to TIMER_MAX
        invariant timers[..] == old(timers[..]) && forall i | 0 <= i < td :: timers[i].timerid != 0
      {
        if timers[td].timerid == 0 {
          timers[td] := Timer(td + 1, clock, ZERO, ZERO);
          return td + 1;
        }
      }
      return 0; // EAGAIN
    }

    /** timer_gettime: the time left of an armed timer. */
    method GetTime(now: Clocks, timerid: nat) returns (ret: int, r: Setting)
      requires Valid() && now.Ok() && 1 <= timerid <= TIMER_MAX
      ensures ret == if timers[timerid - 1].timerid != 0 then 0 else -1
      ensures ret == 0 ==> r.interval == timers[timerid - 1].interval
      ensures ret == 0 ==> r.value == if timers[timerid - 1].Armed() then timers[timerid - 1].Left(now) else ZERO
    {
      var t := timers[timerid - 1];
      if t.timerid == 0 {
        return -1, Setting(ZERO, ZERO); // EINVAL
      } else if t.Armed() {
        return 0, Setting(t.Left(now), t.interval);
      }
      return 0, Setting(t.value, t.interval);
    }

    /**
     timer_settime. The old setting is what timer_gettime would have given; the new one is
     written and the scheduler run on the result.
     */
    method SetTime(now: Clocks, timerid: nat, absolute: bool, new_: Setting)
        returns (ret: int, old_: Setting, ghost batch: seq<nat>)
      requires Valid() && now.Ok() && 1 <= timerid <= TIMER_MAX
      requires new_.value.Normal() && new_.interval.Normal()
      modifies this`hw, this`notified, timers
      ensures Valid()
      ensures ret == if old(timers[timerid - 1].timerid) != 0 then 0 else -1
      ensures ret == -1 ==> timers[..] == old(timers[..]) && hw == old(hw) && notified == old(notified)
      ensures ret == 0 ==>
        var td, t := timerid - 1, old(timers[timerid - 1]);
        && old_.value == (if t.Armed() then t.Left(now) else ZERO) && old_.interval == t.interval
        && Fired(timers[..], old(timers[..])[td := Set(t, now, absolute, new_)], now, batch)
        && notified == old(notified) + batch
        && HwFollows(hw, timers[..], now)
        && (!absolute && ZERO.Less(new_.value) ==>
              timers[td].Left(now) == new_.value && timers[td].interval == new_.interval)
      ensures ret == 0 ==> forall i | 0 <= i < TIMER_MAX :: !timers[i].Overdue(now)
    {
      batch := [];
      ret, old_ := GetTime(now, timerid);
      if ret == 0 {
        var td := timerid - 1;
        if !absolute && ZERO.Less(new_.value) {
          SetThenLeft(timers[td], now, new_);
        }
        timers[td] := Set(timers[td], now, absolute, new_);
        assert timers[..] == old(timers[..])[td := timers[td]];
        batch := Manage(now);
      }
    }
  }

  datatype Setting = Setting(value: Timespec, interval: Timespec)

  /** What timer_settime writes: a relative time is added to the clock, an absolute one, or
      zero, is taken as it is. */
  function Set(t: Timer, now: Clocks, absolute: bool, new_: Setting): Timer {
    if Compare(new_.value, ZERO) != 0 && !absolute
    then t.(value := Add(now.Of(t.clock), new_.value), interval := new_.interval)
    else t.(value := new_.value, interval := new_.interval)
  }

  /** The time of expiry that is set: zero, the time given, or so much after what the clock shows. */
  lemma SetValue(t: Timer, now: Clocks, absolute: bool, new_: Setting)
    requires now.Ok() && new_.value.Normal() && new_.interval.Normal()
    ensures var t' := Set(t, now, absolute, new_);
            && t'.Normal() && t'.interval == new_.interval && t'.timerid == t.timerid && t'.clock == t.clock
            && t'.value.Nanos() == new_.value.Nanos() + if absolute || new_.value == ZERO then 0 else now.Of(t.clock).Nanos()
  {
    hide Timespec.Nanos;
    NanosOf(now.Of(t.clock), new_.value);
    ZeroNanos(new_.value);
  }

  /** So a timer expires when its clock shows the absolute time, or when the relative time has
      passed; and zero, of either kind, disarms it. */
  lemma SetExactly(t: Timer, now: Clocks, later: Clocks, absolute: bool, new_: Setting)
    requires t.Normal() && now.Ok() && later.Ok() && t.timerid != 0 && t.clock != CLOCK_OTHER
    requires new_.value.Normal() && new_.interval.Normal()
    ensures var shows, showed, value := later.Of(t.clock).Nanos(), now.Of(t.clock).Nanos(), new_.value.Nanos();
            var when := if absolute || new_.value == ZERO then value else showed + value;
            && (Set(t, now, absolute, new_).Armed() <==> when != 0)
            && (Set(t, now, absolute, new_).Overdue(later) <==> when != 0 && shows >= when)
  {
    hide Set, Timespec.Nanos, Timespec.Less, Timer.Overdue, Timer.Left, Compare;
    var t' := Set(t, now, absolute, new_);
    SetValue(t, now, absolute, new_);
    ZeroNanos(t'.value);
    OverdueExactly(t', later);
  }

  /** Setting a positive relative time and looking at it at once gives it back. */
  lemma SetThenLeft(t: Timer, now: Clocks, new_: Setting)
    requires t.Normal() && now.Ok() && t.timerid != 0
    requires new_.value.Normal() && new_.interval.Normal() && ZERO.Less(new_.value)
    ensures var t' := Set(t, now, false, new_);
            t'.Armed() && !t'.Overdue(now) && t'.Left(now) == new_.value && t'.interval == new_.interval
  {
  }

  /** The hardware timer is set for the first of the armed timers, if there is one. */
  ghost predicate HwFollows(hw: HwTimer, ts: seq<Timer>, now: Clocks) {
    match hw
    case Stopped => forall i | 0 <= i < |ts| :: !ts[i].Armed()
    case Started(interval) =>
      && (exists i :: 0 <= i < |ts| && ts[i].Armed() && ts[i].Left(now) == interval)
      && (forall i | 0 <= i < |ts| && ts[i].Armed() :: !ts[i].Left(now).Less(interval))
  }

  /** In the middle of a run: the timers of batch have fired, those of todo are still to. */
  ghost predicate Midway(ts: seq<Timer>, ts0: seq<Timer>, now: Clocks, batch: seq<nat>, todo: set<nat>) {
    && TableOk(ts0)
    && Fired(ts, ts0, now, batch)
    && (forall i: nat | i < |ts0| && ts0[i].Overdue(now) :: i in todo <==> i !in batch)
    && (forall i | i in todo :: i < |ts0| && ts0[i].Overdue(now))
    && (forall k, i | 0 <= k < |batch| && i in todo :: Sooner(ts0, now, batch[k], i))
  }

  /** The next timer is overdue exactly when one is left to fire, and then it is the first of those. */
  lemma NextOverdue(ts: seq<Timer>, ts0: seq<Timer>, now: Clocks, batch: seq<nat>, todo: set<nat>, td: int)
    requires TableOk(ts) && now.Ok() && Midway(ts, ts0, now, batch, todo) && IsNext(ts, now, td)
    ensures td == -1 || !ts[td].Overdue(now) ==> todo == {} && forall i | 0 <= i < |ts| :: !ts[i].Overdue(now)
    ensures td != -1 && ts[td].Overdue(now) ==> td in todo && forall i | i in todo && i != td :: Sooner(ts0, now, td, i)
  {
    forall i | 0 <= i < |ts| && i in batch ensures !ts[i].Overdue(now) {
      ExpiredNotOverdue(ts0[i], now);
    }
    forall i | 0 <= i < |ts| && ts[i].Overdue(now) ensures td != -1 && ts[td].Overdue(now) {
      DiffSign(ts[i].value, now.Of(ts[i].clock));
      DiffSign(ts[td].value, now.Of(ts[td].clock));
    }
    forall i | i in todo ensures ts[i] == ts0[i] {
    }
  }

  lemma FireKeeps(ts: seq<Timer>, ts0: seq<Timer>, now: Clocks, batch: seq<nat>, todo: set<nat>, td: nat)
    requires Midway(ts, ts0, now, batch, todo) && td in todo
    requires forall i | i in todo && i != td :: Sooner(ts0, now, td, i)
    ensures Midway(ts[td := ts[td].Expired(now)], ts0, now, batch + [td], todo - {td})
  {
    assert ts[td] == ts0[td];
  }
}
