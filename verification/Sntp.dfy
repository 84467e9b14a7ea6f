/**
 Time stamp conversion and clock estimate of the SNTP client (src/sntp.c:72-168), in
 32-bit unsigned arithmetic, which wraps around.
 */
module Sntp {
  import opened Timespecs

  const SECS_TO_EPOCH: nat := 2208988800

  /** NTP counts seconds from 1900 and Unix from 1970, 70 years with 17 leap days later. */
  lemma EpochIs1970()
    ensures SECS_TO_EPOCH == (70 * 365 + 17) * 86400
  {
  }

  type Word = w: int | 0 <= w < 0x1_0000_0000

  /** Host order; htonl and ntohl cancel out. */
  datatype NtpTimestamp = NtpTimestamp(sec: Word, fract: Word)

  /** lsrr with shift 18, 16 and 14, the ones in use: half is 1 << (shift - 1), unit 1 << shift. */
  function Lsrr(v: Word, half: nat): (r: Word)
    requires 0 < half < 0x8000_0000
  {
    (if v < 0xFFFF_FFFF - half then v + half else v) / (2 * half)
  }

  /** Rounded to the nearest unit, except that the topmost half unit is rounded down. */
  lemma LsrrRounds(v: Word, half: nat)
    requires 0 < half < 0x8000_0000
    ensures var r := Lsrr(v, half);
            if v < 0xFFFF_FFFF - half then v - half < 2 * half * r <= v + half
            else v - 2 * half < 2 * half * r <= v
  {
    var x := if v < 0xFFFF_FFFF - half then v + half else v;
    assert x == 2 * half * (x / (2 * half)) + x % (2 * half);
  }

  /** ntp_to_timespec. The factor is lsrr(NSECS_IN_SEC, 14). */
  function ToTimespec(nt: NtpTimestamp): Timespec {
    Timespec((nt.sec - SECS_TO_EPOCH) % 0x1_0000_0000,
             Lsrr(nt.fract, 0x2_0000) * Lsrr(1_000_000_000, 0x2000) % 0x1_0000_0000)
  }

  /** timespec_to_ntp. */
  function ToNtp(ts: Timespec): NtpTimestamp
    requires ts.Normal()
  {
    NtpTimestamp((ts.sec + SECS_TO_EPOCH) % 0x1_0000_0000, Lsrr(ts.nsec, 0x8000) * 281475 % 0x1_0000_0000)
  }

  /** The product does not overflow, the result is in range, and it is within 64 us of the
      fraction of a second it stands for; within 34 us where lsrr rounds to the nearest. */
  lemma ToTimespecClose(nt: NtpTimestamp)
    ensures Lsrr(nt.fract, 0x2_0000) * Lsrr(1_000_000_000, 0x2000) < 0x1_0000_0000
    ensures ToTimespec(nt).Normal()
    ensures var err := ToTimespec(nt).nsec * 0x1_0000_0000 - nt.fract * 1_000_000_000;
            && -64_000 * 0x1_0000_0000 <= err <= 64_000 * 0x1_0000_0000
            && (nt.fract < 0xFFFD_FFFF ==> -34_000 * 0x1_0000_0000 <= err <= 34_000 * 0x1_0000_0000)
  {
    var r := Lsrr(nt.fract, 0x2_0000);
    assert Lsrr(1_000_000_000, 0x2000) == 61035;
    assert r <= 16383;
    assert ToTimespec(nt).nsec == r * 61035;
    LsrrRounds(nt.fract, 0x2_0000);
  }

  /** The product in timespec_to_ntp fits 32 bits exactly below 999981056 ns. */
  lemma ToNtpFitsExactly(ts: Timespec)
    requires ts.Normal()
    ensures Lsrr(ts.nsec, 0x8000) * 281475 < 0x1_0000_0000 <==> ts.nsec < 999_981_056
  {
  }

  ghost predicate Close(a: int, b: int, bound: int) {
    -bound <= a - b <= bound
  }

  /** To NTP and back keeps the seconds, and is within 70 us exactly in that range: above
      it the fraction wraps around to almost nothing. */
  lemma RoundTripExactly(ts: Timespec)
    requires ts.Normal() && 0 <= ts.sec < 0x1_0000_0000
    ensures ToTimespec(ToNtp(ts)).Normal() && ToTimespec(ToNtp(ts)).sec == ts.sec
    ensures Close(ToTimespec(ToNtp(ts)).nsec, ts.nsec, 70_000) <==> ts.nsec < 999_981_056
  {
    hide Lsrr, Close;
    ToTimespecClose(ToNtp(ts));
    NsecReturns(ts);
    SecondsReturn(ts.sec);
  }

  /** The two wrap-arounds of the seconds cancel out. */
  lemma SecondsReturn(sec: Word)
    ensures ((sec + SECS_TO_EPOCH) % 0x1_0000_0000 - SECS_TO_EPOCH) % 0x1_0000_0000 == sec
  {
  }

  lemma NsecReturns(ts: Timespec)
    requires ts.Normal()
    ensures Close(ToTimespec(ToNtp(ts)).nsec, ts.nsec, 70_000) <==> ts.nsec < 999_981_056
  {
    hide Lsrr, ToTimespec;
    var q, nt := Lsrr(ts.nsec, 0x8000), ToNtp(ts);
    LsrrRounds(ts.nsec, 0x8000);
    ToTimespecClose(nt);
    if ts.nsec < 999_981_056 {
      ToNtpFitsExactly(ts);
      assert nt.fract == q * 281475;
    } else {
      TopFraction(ts);
    }
  }

  /** In the last 19 us of a second the fraction wraps around to 14 us. */
  lemma TopFraction(ts: Timespec)
    requires 999_981_056 <= ts.nsec < 1_000_000_000
    ensures ToNtp(ts).fract == 59729
  {
    assert Lsrr(ts.nsec, 0x8000) == 15259;
  }

  // ---- the estimate ----

  /** C's division of tv_sec and tv_nsec truncates toward zero. */
  function HalfTrunc(x: int): int {
    if x >= 0 then x / 2 else -((-x) / 2)
  }

  /** timespec_half, in place. tv_sec & 1 is the parity, of a negative number too. */
  function Half(t: Timespec): Timespec {
    var odd := t.sec % 2 == 1;
    var sec := if odd then t.sec - 1 else t.sec;
    var nsec := if odd then t.nsec + 1_000_000_000 else t.nsec;
    Timespec(HalfTrunc(sec), HalfTrunc(nsec))
  }

  /** It is floor halving of the whole time, negative ones included. */
  lemma HalfIsFloor(t: Timespec)
    requires t.Normal()
    ensures Half(t).Normal()
    ensures 2 * Half(t).Nanos() <= t.Nanos() <= 2 * Half(t).Nanos() + 1
  {
  }

  /** system_clock_estimate. */
  function Estimate(t1: Timespec, t2: Timespec, t3: Timespec, t4: Timespec): Timespec {
    var t2_1 := Half(Diff(t2, t1));
    var t3_4 := Half(Diff(t3, t4));
    Add(t4, Add(t2_1, t3_4))
  }

  /** The formula of section 5 of RFC 4330, to within 1 ns: doubled, so that it stays exact. */
  lemma EstimateClose(t1: Timespec, t2: Timespec, t3: Timespec, t4: Timespec)
    requires t1.Normal() && t2.Normal() && t3.Normal() && t4.Normal()
    ensures Estimate(t1, t2, t3, t4).Normal()
    ensures var exact2 := 2 * t4.Nanos() + (t2.Nanos() - t1.Nanos()) + (t3.Nanos() - t4.Nanos());
            exact2 - 2 <= 2 * Estimate(t1, t2, t3, t4).Nanos() <= exact2
  {
    var a, b := Diff(t2, t1), Diff(t3, t4);
    NanosOf(t2, t1);
    NanosOf(t3, t4);
    HalfIsFloor(a);
    HalfIsFloor(b);
    NanosOf(Half(a), Half(b));
    NanosOf(t4, Add(Half(a), Half(b)));
  }

  /** With equal delays both ways, it is the server's clock at the moment of T4, to within 1 ns. */
  lemma EstimateRecovers(t1: Timespec, t2: Timespec, t3: Timespec, t4: Timespec, offset: int, delay: int)
    requires t1.Normal() && t2.Normal() && t3.Normal() && t4.Normal()
    requires t2.Nanos() == t1.Nanos() + delay + offset
    requires t4.Nanos() == t3.Nanos() + delay - offset
    ensures t4.Nanos() + offset - 1 <= Estimate(t1, t2, t3, t4).Nanos() <= t4.Nanos() + offset
  {
    EstimateClose(t1, t2, t3, t4);
  }

  /**
   The whole exchange of sntp_request and sntp_reply: T1 goes to the server and back as an
   NTP time stamp, T2 and T3 come as such. With equal delays the result is within 100 us of
   the server's clock exactly when T1 is not in the last 19 us of a second; otherwise it is
   half a second off.
   */
  lemma ExchangeClose(t1: Timespec, n2: NtpTimestamp, n3: NtpTimestamp, t4: Timespec, s2: int, s3: int, offset: int, delay: int)
    requires t1.Normal() && t4.Normal() && 0 <= t1.sec < 0x1_0000_0000
    requires Stamps(n2, s2) && Stamps(n3, s3) // the server's times of reception and transmission
    requires s2 == t1.Nanos() + delay + offset
    requires t4.Nanos() == s3 + delay - offset
    ensures var now := Estimate(ToTimespec(ToNtp(t1)), ToTimespec(n2), ToTimespec(n3), t4);
            && now.Normal()
            && (Close(now.Nanos(), t4.Nanos() + offset, 100_000) <==> t1.nsec < 999_981_056)
            && (t1.nsec >= 999_981_056 ==> Close(now.Nanos(), t4.Nanos() + offset + 500_000_000, 150_000))
  {
    hide ToTimespec, ToNtp, Estimate, Stamps;
    RoundTripExactly(t1);
    StampsClose(n2, s2);
    StampsClose(n3, s3);
    EstimateClose(ToTimespec(ToNtp(t1)), ToTimespec(n2), ToTimespec(n3), t4);
    if t1.nsec >= 999_981_056 {
      TopFraction(t1);
      ToTimespecClose(ToNtp(t1));
    }
  }

  lemma StampsClose(n: NtpTimestamp, ns: int)
    requires Stamps(n, ns)
    ensures ToTimespec(n).Normal() && Close(ToTimespec(n).Nanos(), ns, 64_001)
  {
    hide Lsrr;
    ToTimespecClose(n);
    assert ToTimespec(n).sec == UnixSeconds(n.sec);
  }

  /** Seconds since 1970; a number before that stands for one of the next era, from 2036 on. */
  function UnixSeconds(sec: Word): nat {
    if sec >= SECS_TO_EPOCH then sec - SECS_TO_EPOCH else sec - SECS_TO_EPOCH + 0x1_0000_0000
  }

  /** The time stamp holds the instant ns, truncated to its resolution of 2^-32 s. */
  ghost predicate Stamps(n: NtpTimestamp, ns: int) {
    var rest := ns - UnixSeconds(n.sec) * 1_000_000_000;
    n.fract * 1_000_000_000 <= rest * 0x1_0000_0000 < (n.fract + 1) * 1_000_000_000
  }
}
