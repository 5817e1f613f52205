/** The daily scheduler of `start_daily_scheduler`: the send time of day, the next
    run ("today at the target, or tomorrow"), the hours-and-minutes countdown, and
    the 15-minute heartbeat that announces it. Time is integer seconds counted from
    midnight of an arbitrary day 0, so the time of day of `t` is `t % SecondsPerDay`. */
module Schedule {
  import opened Wrappers

  const SecondsPerDay: nat := 86400
  const SecondsPerHour: nat := 3600
  const SecondsPerMinute: nat := 60

  /** Seconds that must pass between two heartbeats. */
  const HeartbeatInterval: nat := 900

  /** `SEND_TIME`, "21:00". */
  const SendHour: int := 21
  const SendMinute: int := 0

  function TimeOfDay(t: int): (s: nat)
    ensures s < SecondsPerDay
  {
    t % SecondsPerDay
  }

  /** `dt_time(hour, minute)` as seconds after midnight; `None` where the constructor
      rejects the hour or the minute. */
  function TargetOf(hour: int, minute: int): (target: Option<nat>)
    ensures target.Some? <==> 0 <= hour < 24 && 0 <= minute < 60
    ensures target.Some? ==>
      && target.value < SecondsPerDay
      && target.value / SecondsPerHour == hour
      && target.value % SecondsPerHour / SecondsPerMinute == minute
      && target.value % SecondsPerMinute == 0
  {
    if 0 <= hour < 24 && 0 <= minute < 60 then Some(hour * SecondsPerHour + minute * SecondsPerMinute) else None
  }

  /** The configured send time is a valid time of day. */
  lemma SendTimeValid()
    ensures TargetOf(SendHour, SendMinute) == Some(75600)
  {
  }

  /** Midnight of the day on which `t` falls. */
  function DayStart(t: int): (m: int)
    ensures m <= t < m + SecondsPerDay
    ensures m % SecondsPerDay == 0
  {
    t - t % SecondsPerDay
  }

  /** The next run after `now`: today at `target` when the time of day of `now` is
      strictly before it, otherwise tomorrow at `target`. */
  function NextRun(now: int, target: nat): (next: int)
    requires target < SecondsPerDay
    ensures now < next <= now + SecondsPerDay
    ensures TimeOfDay(next) == target
    ensures next == DayStart(now) + target <==> TimeOfDay(now) < target
    ensures next == now + SecondsPerDay <==> TimeOfDay(now) == target
  {
    var today := DayStart(now) + target;
    MultipleOfDay(DayStart(now), target);
    MultipleOfDay(DayStart(now) + SecondsPerDay, target);
    if TimeOfDay(now) < target then today else today + SecondsPerDay
  }

  /** Adding a time of day to a midnight gives that time of day. */
  lemma MultipleOfDay(m: int, r: nat)
    requires m % SecondsPerDay == 0 && r < SecondsPerDay
    ensures (m + r) % SecondsPerDay == r
  {
    var q := m / SecondsPerDay;
    assert m == q * SecondsPerDay;
    assert m + r == q * SecondsPerDay + r;
  }

  /** The next run is the earliest instant after `now` whose time of day is the target. */
  lemma {:induction false} NextRunIsEarliest(now: int, target: nat, t: int)
    requires target < SecondsPerDay
    requires now < t && TimeOfDay(t) == target
    ensures NextRun(now, target) <= t
  {
    var next := NextRun(now, target);
    var m := DayStart(t);
    assert t == m + target;
    if t < next {
      // t and next both lie in (now, now + day] and share the target time of day
      assert next - t < SecondsPerDay;
      SameTimeOfDay(t, next);
    }
  }

  /** Two instants less than a day apart with the same time of day are equal. */
  lemma SameTimeOfDay(a: int, b: int)
    requires a <= b < a + SecondsPerDay
    requires TimeOfDay(a) == TimeOfDay(b)
    ensures a == b
  {
    var qa, qb := a / SecondsPerDay, b / SecondsPerDay;
    assert a == qa * SecondsPerDay + TimeOfDay(a);
    assert b == qb * SecondsPerDay + TimeOfDay(b);
    assert (qb - qa) * SecondsPerDay == b - a;
  }

  /** The "Xh Ym" shown to the user. */
  datatype Countdown = Countdown(hours: nat, minutes: nat)

  /** Whole hours, then whole minutes of the rest, of a positive duration. */
  function CountdownOf(seconds: nat): (c: Countdown)
    ensures c.minutes < 60
    ensures c.hours * SecondsPerHour + c.minutes * SecondsPerMinute <= seconds
    ensures seconds < c.hours * SecondsPerHour + c.minutes * SecondsPerMinute + SecondsPerMinute
  {
    Countdown(seconds / SecondsPerHour, seconds % SecondsPerHour / SecondsPerMinute)
  }

  /** The countdown to the next run is at most 24 hours; it is exactly 24 hours
      (and no minutes) when the current time of day is the target itself. */
  lemma {:induction false} CountdownBounds(now: int, target: nat)
    requires target < SecondsPerDay
    ensures var c := CountdownOf(NextRun(now, target) - now);
      && c.hours <= 24
      && (c.hours == 24 <==> TimeOfDay(now) == target)
      && (c.hours == 24 ==> c.minutes == 0)
  {
    var d := NextRun(now, target) - now;
    var c := CountdownOf(d);
    if c.hours >= 24 {
      assert c.hours * SecondsPerHour >= 24 * SecondsPerHour;
      assert d == SecondsPerDay;
    }
    if d == SecondsPerDay {
      assert c == Countdown(24, 0);
    }
  }

  /** A heartbeat line: when it was printed, the next run and the countdown to it. */
  datatype Status = Status(now: int, nextRun: int, countdown: Countdown)

  /** The heartbeat at `now`: a next run within the coming day at the target time of
      day, and a countdown that is that wait in whole hours and minutes, at most 24
      hours, and exactly 24 hours only when `now` is itself at the target. */
  function StatusAt(now: int, target: nat): (s: Status)
    requires target < SecondsPerDay
    ensures s.now == now
    ensures now < s.nextRun <= now + SecondsPerDay
    ensures TimeOfDay(s.nextRun) == target
    ensures forall t :: now < t && TimeOfDay(t) == target ==> s.nextRun <= t
    ensures s.countdown.minutes < 60 && s.countdown.hours <= 24
    ensures s.countdown.hours == 24 <==> TimeOfDay(now) == target
    ensures s.countdown.hours * SecondsPerHour + s.countdown.minutes * SecondsPerMinute <= s.nextRun - now
    ensures s.nextRun - now < s.countdown.hours * SecondsPerHour + s.countdown.minutes * SecondsPerMinute + SecondsPerMinute
  {
    var next := NextRun(now, target);
    CountdownBounds(now, target);
    assert forall t :: now < t && TimeOfDay(t) == target ==> next <= t by {
      forall t | now < t && TimeOfDay(t) == target {
        NextRunIsEarliest(now, target, t);
      }
    }
    Status(now, next, CountdownOf(next - now))
  }

  /** Consecutive instants at least `HeartbeatInterval` apart, starting that long
      after `start`. */
  ghost predicate Spaced(start: int, beats: seq<int>) {
    && (beats != [] ==> start + HeartbeatInterval <= beats[0])
    && forall k :: 0 < k < |beats| ==> beats[k - 1] + HeartbeatInterval <= beats[k]
  }

  /** Spaced heartbeats are rare: at most one per `HeartbeatInterval` since `start`. */
  lemma {:induction false} SpacedBound(start: int, beats: seq<int>)
    requires beats != [] && Spaced(start, beats)
    ensures |beats| * HeartbeatInterval <= beats[|beats| - 1] - start
  {
    if |beats| > 1 {
      var init := beats[..|beats| - 1];
      assert Spaced(start, init) by {
        forall k | 0 < k < |init|
          ensures init[k - 1] + HeartbeatInterval <= init[k]
        {
          assert init[k] == beats[k] && init[k - 1] == beats[k - 1];
        }
      }
      SpacedBound(start, init);
      var n := |beats|;
      assert beats[n - 2] + HeartbeatInterval <= beats[n - 1];
      assert n * HeartbeatInterval == (n - 1) * HeartbeatInterval + HeartbeatInterval;
    }
  }

  /** A heartbeat far enough after the last one keeps the history spaced. */
  lemma SpacedAppend(start: int, beats: seq<int>, t: int)
    requires Spaced(start, beats)
    requires (if beats == [] then start else beats[|beats| - 1]) + HeartbeatInterval <= t
    ensures Spaced(start, beats + [t])
  {
    var b := beats + [t];
    forall k | 0 < k < |b|
      ensures b[k - 1] + HeartbeatInterval <= b[k]
    {
      if k < |beats| {
        assert b[k] == beats[k] && b[k - 1] == beats[k - 1];
      } else {
        assert b[k - 1] == beats[|beats| - 1];
      }
    }
  }

  /** The status loop's state: the target time and `last_check`, with the instants of
      the heartbeats printed so far as ghost history. */
  class Heartbeat {
    const target: nat
    ghost const start: int
    var lastCheck: int
    ghost var beats: seq<int>

    ghost predicate Valid()
      reads this
    {
      && target < SecondsPerDay
      && Spaced(start, beats)
      && lastCheck == (if beats == [] then start else beats[|beats| - 1])
    }

    /** `last_check = datetime.now()` when the loop starts. */
    constructor(target: nat, start: int)
      requires target < SecondsPerDay
      ensures this.target == target && this.start == start
      ensures lastCheck == start && beats == []
      ensures Valid()
    {
      this.target := target;
      this.start := start;
      lastCheck := start;
      beats := [];
    }

    /** The heartbeats so far are at most one per `HeartbeatInterval` seconds
        since the loop started, and the last one is at `last_check`. */
    lemma Rare()
      requires Valid()
      ensures beats != [] ==> beats[|beats| - 1] == lastCheck
      ensures |beats| * HeartbeatInterval <= lastCheck - start
    {
      if beats != [] {
        SpacedBound(start, beats);
      }
    }

    /** One pass of the status check: once `HeartbeatInterval` seconds have passed
        since `last_check`, report the next run and move `last_check` to `now`. */
    method Poll(now: int) returns (status: Option<Status>)
      requires Valid()
      modifies this
      ensures Valid()
      ensures now - old(lastCheck) >= HeartbeatInterval ==>
        status == Some(StatusAt(now, target)) && lastCheck == now && beats == old(beats) + [now]
      ensures now - old(lastCheck) < HeartbeatInterval ==>
        status == None && lastCheck == old(lastCheck) && beats == old(beats)
    {
      if now - lastCheck >= HeartbeatInterval {
        var next := NextRun(now, target);
        status := Some(Status(now, next, CountdownOf(next - now)));
        SpacedAppend(start, beats, now);
        beats := beats + [now];
        lastCheck := now;
      } else {
        status := None;
      }
    }
  }
}
