// Time arithmetic of src/ae.c and the poll timeout that reaches epoll.

module AeClock {

  // C division and remainder truncate toward zero.
  function CDiv(a: int, b: int): int
    requires b > 0
  {
    if a >= 0 then a / b else -((-a) / b)
  }

  function CMod(a: int, b: int): int
    requires b > 0
  {
    a - b * CDiv(a, b)
  }

  datatype Time = Time(sec: int, ms: int)

  function Total(t: Time): int { t.sec * 1000 + t.ms }

  ghost predicate Proper(t: Time) { 0 <= t.ms < 1000 }

  // All that is left of this after a negative delay.
  ghost predicate InRange(t: Time) { -1000 < t.ms < 1000 }

  // The order the code compares in: seconds first.
  predicate Earlier(a: Time, b: Time) {
    a.sec < b.sec || (a.sec == b.sec && a.ms < b.ms)
  }

  predicate Due(when: Time, now: Time) {
    now.sec > when.sec || (now.sec == when.sec && now.ms >= when.ms)
  }

  // aeAddMillisecondsToNow
  function AddMilliseconds(now: Time, delay: int): Time {
    var sec, ms := now.sec + CDiv(delay, 1000), now.ms + CMod(delay, 1000);
    if ms >= 1000 then Time(sec + 1, ms - 1000) else Time(sec, ms)
  }

  // The sum is right for every delay. The milliseconds are in range for every
  // delay that is not negative, and for a negative one as long as the part below
  // a second does not exceed the current milliseconds.
  lemma AddIsExact(now: Time, delay: int)
    requires Proper(now)
    ensures Total(AddMilliseconds(now, delay)) == Total(now) + delay
    ensures Proper(AddMilliseconds(now, delay)) <==> delay >= 0 || now.ms >= -delay % 1000
    ensures InRange(AddMilliseconds(now, delay))
  {
    if delay < 0 {
      assert -delay == 1000 * (-delay / 1000) + -delay % 1000;
    }
  }

  lemma OrderIsTotal(a: Time, b: Time)
    requires Proper(a) && Proper(b)
    ensures Earlier(a, b) <==> Total(a) < Total(b)
    ensures Due(a, b) <==> Total(a) <= Total(b)
  {
  }

  // A rescheduled event is due again, while the clock stands still, exactly when
  // its delay is not positive.
  lemma DueAgain(now: Time, delay: int)
    requires Proper(now)
    ensures Due(AddMilliseconds(now, delay), now) <==> delay <= 0
  {
    if delay < 0 {
      assert -delay == 1000 * (-delay / 1000) + -delay % 1000;
    } else {
      AddIsExact(now, delay);
      OrderIsTotal(AddMilliseconds(now, delay), now);
    }
  }

  lemma AddParts(now: Time, sec: nat, ms: nat)
    requires 0 <= now.ms && now.ms + ms < 1000
    ensures AddMilliseconds(now, 1000 * sec + ms) == Time(now.sec + sec, now.ms + ms)
  {
  }

  lemma LaterDelay(now: Time, soon: int, late: int)
    requires Proper(now) && 0 <= soon < late
    ensures Earlier(AddMilliseconds(now, soon), AddMilliseconds(now, late))
    ensures !Earlier(AddMilliseconds(now, late), AddMilliseconds(now, soon))
  {
    hide AddMilliseconds;
    AddIsExact(now, soon);
    AddIsExact(now, late);
    OrderIsTotal(AddMilliseconds(now, soon), AddMilliseconds(now, late));
    OrderIsTotal(AddMilliseconds(now, late), AddMilliseconds(now, soon));
  }

  // The timeval that aeProcessEvents computes, in (seconds, microseconds).
  function Timeval(when: Time, now: Time): (int, int) {
    var sec := when.sec - now.sec;
    var (s, u) :=
      if when.ms < now.ms then (sec - 1, (when.ms + 1000 - now.ms) * 1000) else (sec, (when.ms - now.ms) * 1000);
    (if s < 0 then 0 else s, if u < 0 then 0 else u)
  }

  // The conversion to int of epoll_wait's timeout argument.
  function Int32(n: int): int {
    (n + 0x8000_0000) % 0x1_0000_0000 - 0x8000_0000
  }

  function EpollTimeout(when: Time, now: Time): int {
    var (s, u) := Timeval(when, now);
    Int32(s * 1000 + CDiv(u, 1000))
  }

  // A timer that is not overdue is waited for exactly as long as it needs, unless
  // its milliseconds are more than a second short of the clock's or the wait does
  // not fit the int of epoll_wait; of an overdue one only the milliseconds of the
  // difference survive.
  ghost predicate WaitsFor(timeout: int, when: Time, now: Time) {
    var remaining, short := Total(when) - Total(now), now.ms - when.ms > 1000;
    if remaining >= 0 then timeout == remaining <==> !short && remaining <= 0x7FFF_FFFF
    else timeout == (if short then 0 else remaining % 1000) <= 999
  }

  lemma WaitIsExact(when: Time, now: Time)
    requires InRange(when) && Proper(now) && Total(when) >= Total(now)
    ensures WaitsFor(EpollTimeout(when, now), when, now)
  {
    var (s, u) := Timeval(when, now);
    var remaining, over := Total(when) - Total(now), if now.ms - when.ms > 1000 then now.ms - when.ms - 1000 else 0;
    assert s * 1000 + CDiv(u, 1000) == remaining + over;
    IntFits(remaining, over);
  }

  lemma IntFits(n: int, over: int)
    requires 0 <= n && 0 <= over < 1000
    ensures Int32(n + over) == n <==> over == 0 && n <= 0x7FFF_FFFF
  {
    var k := (n + over + 0x8000_0000) / 0x1_0000_0000;
    assert Int32(n + over) == n + over - k * 0x1_0000_0000;
  }

  lemma OverdueWait(when: Time, now: Time)
    requires InRange(when) && Proper(now) && Total(when) < Total(now)
    ensures WaitsFor(EpollTimeout(when, now), when, now) && EpollTimeout(when, now) >= 0
  {
    hide Int32, CDiv;
    var (s, u) := Timeval(when, now);
    var d := when.ms - now.ms;
    var r := if d < -1000 then 0 else if d < 0 then d + 1000 else d;
    assert s == 0 && u == r * 1000;
    Remainder(if d < 0 then when.sec - now.sec - 1 else when.sec - now.sec, r);
  }

  lemma Remainder(q: int, r: int)
    requires 0 <= r < 1000
    ensures (1000 * q + r) % 1000 == r && Int32(r) == r && CDiv(r * 1000, 1000) == r
  {
  }

  // Milliseconds out of range: one millisecond before a full second.
  lemma NegativeDelayWitness(sec: int)
    ensures AddMilliseconds(Time(sec, 0), -1) == Time(sec, -1)
  {
    BackParts(Time(sec, 0), 1);
  }

  lemma BackParts(now: Time, ms: int)
    requires 0 < ms < 1000 && now.ms < 1000
    ensures AddMilliseconds(now, -ms) == Time(now.sec, now.ms - ms)
  {
  }
}
