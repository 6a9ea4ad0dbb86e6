/** The two duration labels of the player: how long ago a history entry was
    played ("42s ago", "5m ago", "2h 7m ago", "3d ago") and how long the
    current stream has been up ("2h 7m", "45m"). The clock is a parameter:
    `now` is the value `Date.now()` returns, in milliseconds, so a second,
    a minute, an hour and a day are 1000, 60000, 3600000 and 86400000 of it. */
module Durations {
  import opened Options
  import Decimal

  /** `minutes % 60` in JavaScript, whose `%` truncates: the remainder has
      the sign of the dividend (Dafny's `%` never returns a negative value). */
  function MinuteOfHour(minutes: int): (r: int)
    ensures minutes >= 0 ==> 0 <= r <= 59
    ensures minutes < 0 ==> -59 <= r <= 0
    ensures (minutes - r) % 60 == 0
  {
    if minutes >= 0 then minutes % 60 else -((-minutes) % 60)
  }

  /** `Math.floor(x / b)` for an integer `x` and a positive integer `b`:
      Dafny's `/` rounds toward negative infinity when the divisor is
      positive, exactly as `Math.floor` does. */
  function FloorDiv(x: int, b: int): (q: int)
    requires b > 0
    ensures b * q <= x < b * q + b
  {
    x / b
  }

  datatype Ago =
    | SecondsAgo(seconds: int)
    | MinutesAgo(minutes: int)
    | HoursAgo(hours: int, minutes: int)
    | DaysAgo(days: int)

  /** `a` is the label for an elapsed time of `elapsed` milliseconds:
      seconds under a minute, minutes under an hour, hours and minutes under a
      day, days from a day on, with the label's numbers bracketing the elapsed
      time to the label's unit and the minutes of an hour in [0,59]. */
  predicate Fits(a: Ago, elapsed: int) {
    match a
    case SecondsAgo(s) =>
      && elapsed < 60000
      && 1000 * s <= elapsed < 1000 * (s + 1)
    case MinutesAgo(m) =>
      && 60000 <= elapsed < 3600000
      && 60000 * m <= elapsed < 60000 * (m + 1)
    case HoursAgo(h, m) =>
      && 3600000 <= elapsed < 86400000 && 0 <= m <= 59
      && 3600000 * h + 60000 * m <= elapsed < 3600000 * h + 60000 * (m + 1)
    case DaysAgo(d) =>
      && 86400000 <= elapsed
      && 86400000 * d <= elapsed < 86400000 * (d + 1)
  }

  /** The bucket `timeAgo(ts)` chooses when the clock reads `now`. */
  function AgoBucket(ts: int, now: int): (a: Ago)
    ensures Fits(a, now - ts)
  {
    var seconds := FloorDiv(now - ts, 1000);
    if seconds < 60 then SecondsAgo(seconds)
    else
      var minutes := FloorDiv(seconds, 60);
      if minutes < 60 then MinutesAgo(minutes)
      else
        var hours := FloorDiv(minutes, 60);
        if hours < 24 then HoursAgo(hours, MinuteOfHour(minutes))
        else DaysAgo(FloorDiv(hours, 24))
  }

  function RenderAgo(a: Ago): string {
    match a
    case SecondsAgo(s) => Decimal.IntToString(s) + "s ago"
    case MinutesAgo(m) => Decimal.IntToString(m) + "m ago"
    case HoursAgo(h, m) => Decimal.IntToString(h) + "h " + Decimal.IntToString(m) + "m ago"
    case DaysAgo(d) => Decimal.IntToString(d) + "d ago"
  }

  /** Reads a rendered "time ago" label back into its bucket. */
  function ReadAgo(text: string): Option<Ago> {
    match Decimal.ReadInt(text)
    case None => None
    case Some((n, rest)) => ReadAgoUnit(n, rest)
  }

  /** Reads what follows the leading number `n` of a "time ago" label. */
  function ReadAgoUnit(n: int, rest: string): Option<Ago> {
    if rest == "s ago" then Some(SecondsAgo(n))
    else if rest == "m ago" then Some(MinutesAgo(n))
    else if rest == "d ago" then Some(DaysAgo(n))
    else if |rest| >= 2 && rest[..2] == "h " then
      match Decimal.ReadInt(rest[2..])
      case None => None
      case Some((m, tail)) => if tail == "m ago" then Some(HoursAgo(n, m)) else None
    else None
  }

  /** Every label is unambiguous: it reads back as the bucket it renders. */
  lemma ReadRenderAgo(a: Ago)
    ensures ReadAgo(RenderAgo(a)) == Some(a)
  {
    match a
    case SecondsAgo(s) => Decimal.ReadIntToString(s, "s ago");
    case MinutesAgo(m) => Decimal.ReadIntToString(m, "m ago");
    case DaysAgo(d) => Decimal.ReadIntToString(d, "d ago");
    case HoursAgo(h, m) => ReadRenderHoursAgo(h, m);
  }

  lemma ReadRenderHoursAgo(h: int, m: int)
    ensures ReadAgo(RenderAgo(HoursAgo(h, m))) == Some(HoursAgo(h, m))
  {
    var rest := "h " + Decimal.IntToString(m) + "m ago";
    assert RenderAgo(HoursAgo(h, m)) == Decimal.IntToString(h) + rest;
    Decimal.ReadIntToString(h, rest);
    ReadHoursUnit(h, m);
  }

  /** The text after the hour count of an "hours minutes" label reads back
      as its minutes. */
  lemma ReadHoursUnit(h: int, m: int)
    ensures ReadAgoUnit(h, "h " + Decimal.IntToString(m) + "m ago") == Some(HoursAgo(h, m))
  {
    var rest := "h " + Decimal.IntToString(m) + "m ago";
    assert rest[0] == 'h' && rest[..2] == "h ";
    assert rest[0] != "s ago"[0] && rest[0] != "m ago"[0] && rest[0] != "d ago"[0];
    assert rest[2..] == Decimal.IntToString(m) + "m ago";
    Decimal.ReadIntToString(m, "m ago");
  }

  /** `timeAgo(ts)` with the clock reading `now`: the rendered label, which
      reads back as the bucket for the elapsed time. */
  function TimeAgo(ts: int, now: int): (text: string)
    ensures ReadAgo(text) == Some(AgoBucket(ts, now))
  {
    ReadRenderAgo(AgoBucket(ts, now));
    RenderAgo(AgoBucket(ts, now))
  }

  /** The lower end, in milliseconds, of the elapsed time a label stands for. */
  function AgoFloor(a: Ago): int {
    match a
    case SecondsAgo(s) => 1000 * s
    case MinutesAgo(m) => 60000 * m
    case HoursAgo(h, m) => 3600000 * h + 60000 * m
    case DaysAgo(d) => 86400000 * d
  }

  /** Each elapsed time has exactly one label. */
  lemma FitsUnique(a: Ago, b: Ago, elapsed: int)
    requires Fits(a, elapsed) && Fits(b, elapsed)
    ensures a == b
  {
    match a
    case HoursAgo(h, m) =>
      assert b.HoursAgo?;
      assert 60 * h + m == 60 * b.hours + b.minutes;
    case _ =>
  }

  /** A label stands for no more time than has elapsed, and the labels of a
      longer elapsed time stand for no less. */
  lemma {:induction false} FitsMonotone(a: Ago, b: Ago, shorter: int, longer: int)
    requires shorter <= longer && Fits(a, shorter) && Fits(b, longer)
    ensures AgoFloor(a) <= shorter
    ensures AgoFloor(a) <= AgoFloor(b)
  {
    FloorBelow(a, shorter);
    FloorBelow(b, longer);
    match b
    case SecondsAgo(sb) =>
      assert a.SecondsAgo? && 1000 * a.seconds <= longer < 1000 * (sb + 1);
    case MinutesAgo(mb) =>
      if a.MinutesAgo? {
        assert 60000 * a.minutes <= longer < 60000 * (mb + 1);
      } else {
        assert AgoFloor(a) < 60000;
      }
    case HoursAgo(hb, mb) =>
      if a.HoursAgo? {
        assert 60000 * (60 * a.hours + a.minutes) <= longer < 60000 * (60 * hb + mb + 1);
      } else {
        assert AgoFloor(a) < 3600000;
      }
    case DaysAgo(db) =>
      if a.DaysAgo? {
        assert 86400000 * a.days <= longer < 86400000 * (db + 1);
      } else {
        assert AgoFloor(a) < 86400000;
      }
  }

  /** The time a label stands for is at most the elapsed time it fits, and
      at least its bucket's lower end. */
  lemma FloorBelow(a: Ago, elapsed: int)
    requires Fits(a, elapsed)
    ensures AgoFloor(a) <= elapsed
    ensures a.MinutesAgo? ==> AgoFloor(a) >= 60000
    ensures a.HoursAgo? ==> AgoFloor(a) >= 3600000
    ensures a.DaysAgo? ==> AgoFloor(a) >= 86400000
  {
  }

  /** As the clock advances, a label never goes back in time. */
  lemma AgoMonotone(ts: int, now: int, later: int)
    requires now <= later
    ensures AgoFloor(AgoBucket(ts, now)) <= AgoFloor(AgoBucket(ts, later))
  {
    FitsMonotone(AgoBucket(ts, now), AgoBucket(ts, later), now - ts, later - ts);
  }

  datatype Uptime =
    | UpHours(hours: int, minutes: int)
    | UpMinutes(minutes: int)

  /** The uptime label for a stream that started at `start` (milliseconds)
      when the clock reads `now`: whole minutes when fewer than sixty have
      passed, hours and minutes otherwise. The minute part is always the
      whole minutes elapsed modulo 60; a start in the future gives a negative
      hour count and a minute part that is zero or negative, the sign
      JavaScript's `%` gives it. */
  function UptimeOf(start: int, now: int): (u: Uptime)
    ensures u.UpMinutes? <==> 0 <= now - start < 3600000
    ensures u.UpMinutes? ==>
              && 0 <= u.minutes <= 59
              && 60000 * u.minutes <= now - start < 60000 * (u.minutes + 1)
    ensures u.UpHours? && now - start >= 0 ==>
              && u.hours >= 1 && 0 <= u.minutes <= 59
              && 3600000 * u.hours + 60000 * u.minutes <= now - start
              && now - start < 3600000 * u.hours + 60000 * (u.minutes + 1)
    ensures u.UpHours? && now - start < 0 ==>
              && u.hours <= -1 && -59 <= u.minutes <= 0
              && 3600000 * u.hours <= now - start < 3600000 * (u.hours + 1)
    ensures u.UpHours? ==> (FloorDiv(now - start, 60000) - u.minutes) % 60 == 0
  {
    var mins := FloorDiv(now - start, 60000);
    var hrs := FloorDiv(mins, 60);
    if hrs != 0 then UpHours(hrs, MinuteOfHour(mins)) else UpMinutes(mins)
  }

  /** A stream whose start lies five minutes ahead of the clock shows
      "-1h -5m": read naively that is sixty-five minutes, not five. */
  lemma UptimeAheadOfClock(now: int)
    ensures UptimeOf(now + 5 * 60000, now) == UpHours(-1, -5)
    ensures RenderUptime(UptimeOf(now + 5 * 60000, now)) == "-1h -5m"
  {
    assert FloorDiv(-300000, 60000) == -5;
    assert FloorDiv(-5, 60) == -1;
    assert MinuteOfHour(-5) == -5;
    assert Decimal.IntToString(-1) == "-1";
    assert Decimal.IntToString(-5) == "-5";
  }

  function RenderUptime(u: Uptime): string {
    match u
    case UpHours(h, m) => Decimal.IntToString(h) + "h " + Decimal.IntToString(m) + "m"
    case UpMinutes(m) => Decimal.IntToString(m) + "m"
  }

  /** Reads a rendered uptime label back. */
  function ReadUptime(text: string): Option<Uptime> {
    match Decimal.ReadInt(text)
    case None => None
    case Some((n, rest)) => ReadUptimeUnit(n, rest)
  }

  /** Reads what follows the leading number `n` of an uptime label. */
  function ReadUptimeUnit(n: int, rest: string): Option<Uptime> {
    if rest == "m" then Some(UpMinutes(n))
    else if |rest| >= 2 && rest[..2] == "h " then
      match Decimal.ReadInt(rest[2..])
      case None => None
      case Some((m, tail)) => if tail == "m" then Some(UpHours(n, m)) else None
    else None
  }

  /** Every uptime label reads back as the uptime it renders. */
  lemma ReadRenderUptime(u: Uptime)
    ensures ReadUptime(RenderUptime(u)) == Some(u)
  {
    match u
    case UpMinutes(m) => Decimal.ReadIntToString(m, "m");
    case UpHours(h, m) =>
      var rest := "h " + Decimal.IntToString(m) + "m";
      assert RenderUptime(u) == Decimal.IntToString(h) + rest;
      Decimal.ReadIntToString(h, rest);
      ReadUptimeHours(h, m);
  }

  /** The text after the hour count of an uptime label reads back as its
      minutes. */
  lemma ReadUptimeHours(h: int, m: int)
    ensures ReadUptimeUnit(h, "h " + Decimal.IntToString(m) + "m") == Some(UpHours(h, m))
  {
    var rest := "h " + Decimal.IntToString(m) + "m";
    assert rest[0] == 'h' && rest[..2] == "h ";
    assert rest[2..] == Decimal.IntToString(m) + "m";
    Decimal.ReadIntToString(m, "m");
  }

  /** The uptime text, which reads back as the uptime for the elapsed time. */
  function UptimeLabel(start: int, now: int): (text: string)
    ensures ReadUptime(text) == Some(UptimeOf(start, now))
  {
    ReadRenderUptime(UptimeOf(start, now));
    RenderUptime(UptimeOf(start, now))
  }
}
