/**
  The shutoff timer: arming a target wall-clock time from "now + duration"
  with carries from seconds into minutes into hours (hours wrap at 24, no
  day field), and the per-tick expiry test, which compares the target
  with the clock field by field.
 */
module ShutoffTimer {

  import Arith
  import Tables

  const SecondsPerDay: nat := 24 * Tables.Hour

  /** A wall-clock reading of the real-time clock: hours, minutes, seconds. */
  datatype WallTime = WallTime(hours: nat, minutes: nat, seconds: nat)

  predicate Valid(t: WallTime) {
    t.hours < 24 && t.minutes < 60 && t.seconds < 60
  }

  /** The reference meaning of a wall-clock reading: seconds since midnight. */
  function SecondsOfDay(t: WallTime): nat {
    t.hours * Tables.Hour + t.minutes * Tables.Minute + t.seconds
  }

  /**
    Arms a timer of `duration` seconds at `now`, carrying field by field
    exactly as the firmware does. Whatever `now` holds, the target is a
    valid time whose seconds-of-day is `now + duration` modulo one day.
   */
  function Arm(now: WallTime, duration: nat): (target: WallTime)
    ensures Valid(target)
    ensures SecondsOfDay(target) == (SecondsOfDay(now) + duration) % SecondsPerDay
  {
    var sec := now.seconds + duration;
    var min := now.minutes + sec / 60;
    var hour := now.hours + min / 60;
    var target := WallTime(hour % 24, min % 60, sec % 60);
    ArmCarries(now, duration, sec, min, hour);
    target
  }

  /** The carry chain of `Arm` preserves the total number of seconds. */
  lemma ArmCarries(now: WallTime, duration: nat, sec: nat, min: nat, hour: nat)
    requires sec == now.seconds + duration
    requires min == now.minutes + sec / 60
    requires hour == now.hours + min / 60
    ensures (hour % 24) * 3600 + (min % 60) * 60 + sec % 60
            == (SecondsOfDay(now) + duration) % SecondsPerDay
  {
    var total := SecondsOfDay(now) + duration;
    assert sec == (sec / 60) * 60 + sec % 60;
    assert min == (min / 60) * 60 + min % 60;
    assert hour == (hour / 24) * 24 + hour % 24;
    assert total == now.hours * 3600 + min * 60 + sec % 60 by {
      assert min * 60 == now.minutes * 60 + (sec / 60) * 60;
    }
    assert total == hour * 3600 + (min % 60) * 60 + sec % 60 by {
      assert hour * 3600 == now.hours * 3600 + (min / 60) * 3600;
      assert min * 60 == (min / 60) * 3600 + (min % 60) * 60;
    }
    var rest := (hour % 24) * 3600 + (min % 60) * 60 + sec % 60;
    assert rest < SecondsPerDay by {
      assert (min % 60) * 60 + sec % 60 < 3600;
      assert (hour % 24) * 3600 <= 23 * 3600;
    }
    assert total == (hour / 24) * SecondsPerDay + rest by {
      assert hour * 3600 == (hour / 24) * SecondsPerDay + (hour % 24) * 3600;
    }
    Arith.ModUnique(total, SecondsPerDay, hour / 24, rest);
  }

  /**
    The firmware's expiry test: the target is at or before `now`, compared
    hours first, then minutes, then seconds; equality counts as expired.
   */
  function Expired(now: WallTime, target: WallTime): (expired: bool)
    ensures target == now ==> expired
    ensures target.hours > now.hours ==> !expired
    ensures expired ==> target.minutes <= now.minutes || target.hours < now.hours
  {
    if target.hours < now.hours then true
    else if target.hours == now.hours then
      if target.minutes < now.minutes then true
      else if target.minutes == now.minutes then target.seconds <= now.seconds
      else false
    else false
  }

  /**
    For readings whose minute and second fields are in range, the
    field-by-field test is exactly "target's seconds-of-day is at most
    now's".
   */
  lemma {:induction false} ExpiredIffNotLater(now: WallTime, target: WallTime)
    requires now.minutes < 60 && now.seconds < 60
    requires target.minutes < 60 && target.seconds < 60
    ensures Expired(now, target) <==> SecondsOfDay(target) <= SecondsOfDay(now)
  {
    var tl := target.minutes * 60 + target.seconds;
    var nl := now.minutes * 60 + now.seconds;
    assert tl < 3600 && nl < 3600;
    if target.hours < now.hours {
      Arith.MulMono(target.hours + 1, now.hours, 3600);
    } else if target.hours > now.hours {
      Arith.MulMono(now.hours + 1, target.hours, 3600);
    } else if target.minutes < now.minutes {
      Arith.MulMono(target.minutes + 1, now.minutes, 60);
    } else if target.minutes > now.minutes {
      Arith.MulMono(now.minutes + 1, target.minutes, 60);
    }
  }

  /**
    Arming across midnight: for a valid `now` and a duration of at most one
    day, the freshly armed target already reads as expired at `now` exactly
    when `now + duration` reaches the next midnight. A target that wrapped
    to the early hours compares as lying in the past.
   */
  lemma ArmExpiredIffWraps(now: WallTime, duration: nat)
    requires Valid(now)
    requires 0 < duration <= SecondsPerDay
    ensures Expired(now, Arm(now, duration))
            <==> SecondsOfDay(now) + duration >= SecondsPerDay
  {
    var target := Arm(now, duration);
    var total := SecondsOfDay(now) + duration;
    ExpiredIffNotLater(now, target);
    if total < SecondsPerDay {
      Arith.ModUnique(total, SecondsPerDay, 0, total);
    } else {
      Arith.ModUnique(total, SecondsPerDay, 1, total - SecondsPerDay);
    }
  }

  /** The two timetable examples: 23:59.58 + 5 s and 10:00.00 + 1 h. */
  lemma ArmExamples()
    ensures Arm(WallTime(23, 59, 58), 5) == WallTime(0, 0, 3)
    ensures Arm(WallTime(10, 0, 0), 3600) == WallTime(11, 0, 0)
    ensures Expired(WallTime(11, 0, 0), WallTime(11, 0, 0))
    ensures !Expired(WallTime(10, 59, 59), WallTime(11, 0, 0))
  {
  }
}
