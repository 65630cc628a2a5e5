/**
 * The uptime text: the seconds elapsed since boot, truncated to a whole number
 * by `int()`, written as Python writes a `timedelta` of that many seconds —
 * `H:MM:SS` with the hours unpadded, preceded by `D day, ` or `D days, ` once
 * the duration reaches a day (or is negative).
 */
module Uptime {

  import opened Wrappers
  import opened Text

  // A day has 86400 seconds, an hour 3600 and a minute 60; the numbers are
  // written out so that the divisions stay linear arithmetic for the verifier.

  /** `int(x)` on a float: the whole part, truncated toward zero. */
  function TruncateToInt(x: real): (n: int)
    ensures x >= 0.0 ==> 0 <= n && n as real <= x < n as real + 1.0
    ensures x < 0.0 ==> n <= 0 && n as real - 1.0 < x <= n as real
  {
    if x >= 0.0 then x.Floor else -((-x).Floor)
  }

  /** `%d:%02d:%02d` of the hours, minutes and seconds in `sec`, a time of day. */
  function Clock(sec: nat): (s: string)
    requires sec < 86400
    ensures |s| == if sec < 36000 then 7 else 8
    ensures s[0] == '0' <==> sec < 3600
  {
    NatToString(sec / 3600) + ":" +
    TwoDigits(sec % 3600 / 60) + ":" +
    TwoDigits(sec % 60)
  }

  /**
   * `str(timedelta(seconds=s))`. The duration is split into whole days (rounded
   * down, as Python's divmod does) and the seconds left over; the days are shown
   * only when there are some.
   */
  function Timedelta(s: int): string {
    var days := s / 86400;
    var clock := Clock(s % 86400);
    if days == 0 then clock
    else IntToString(days) + " day" + (if days == 1 || days == -1 then "" else "s") + ", " + clock
  }

  /** The uptime text for the current time and the boot time, both in seconds. */
  function UptimeText(now: real, boot: real): string {
    Timedelta(TruncateToInt(now - boot))
  }

  /** Reads a two-digit minutes or seconds field, `00` to `59`. */
  function ParseSixty(f: string): (r: Option<nat>)
    ensures r.Some? ==> r.value < 60
  {
    if |f| == 2 && AllDigits(f) && DecimalValue(f) < 60 then Some(DecimalValue(f)) else None
  }

  /** Reads `H:MM:SS` back into seconds. */
  function ParseClock(t: string): Option<nat> {
    match SplitAt(t, ':')
    case None => None
    case Some((h, afterHours)) =>
      match SplitAt(afterHours, ':')
      case None => None
      case Some((m, sec)) =>
        var hv, mv, sv := ParseNat(h), ParseSixty(m), ParseSixty(sec);
        if hv.Some? && mv.Some? && sv.Some? then Some(hv.value * 3600 + mv.value * 60 + sv.value) else None
  }

  /** Three well-formed fields joined by `:` read back as the seconds they denote. */
  lemma ParseClockFields(h: string, m: string, sec: string, hv: nat, mv: nat, sv: nat)
    requires ParseNat(h) == Some(hv) && ParseSixty(m) == Some(mv) && ParseSixty(sec) == Some(sv)
    ensures ParseClock(h + [':'] + (m + [':'] + sec)) == Some(hv * 3600 + mv * 60 + sv)
  {
    DigitsHaveNoColon(h);
    DigitsHaveNoColon(m);
    SplitAtField(h, ':', m + [':'] + sec);
    SplitAtField(m, ':', sec);
  }

  /** A time of day written as `H:MM:SS` reads back as the same number of seconds. */
  lemma ClockRoundTrip(sec: nat)
    requires sec < 86400
    ensures ParseClock(Clock(sec)) == Some(sec)
  {
    var hours, minutes, seconds := sec / 3600, sec % 3600 / 60, sec % 60;
    var h, m, s := NatToString(hours), TwoDigits(minutes), TwoDigits(seconds);
    ClockRegroup(h, m, s);
    NatToStringParses(hours);
    ParseClockFields(h, m, s, hours, minutes, seconds);
    HoursMinutesSeconds(sec);
  }

  lemma ClockRegroup(h: string, m: string, s: string)
    ensures h + ":" + m + ":" + s == h + [':'] + (m + [':'] + s)
  {
  }

  lemma HoursMinutesSeconds(sec: nat)
    ensures sec / 3600 * 3600 + sec % 3600 / 60 * 60 + sec % 60 == sec
  {
  }

  lemma DigitsHaveNoColon(d: string)
    requires AllDigits(d)
    ensures ':' !in d
  {
  }

  /** Under a day the text is exactly `H:MM:SS`, and it reads back as the truncated seconds. */
  lemma UnderADay(s: int)
    requires 0 <= s < 86400
    ensures Timedelta(s) == Clock(s)
    ensures ParseClock(Timedelta(s)) == Some(s)
  {
    assert s / 86400 == 0 && s % 86400 == s;
    ClockRoundTrip(s);
  }

  /**
   * From one day on, the text is the day count, ` day, ` for exactly one day and
   * ` days, ` otherwise, then the time of day left over; so it starts with the
   * day count and ` day` and ends with that time of day.
   */
  lemma DaysShown(s: int)
    requires s >= 86400
    ensures Timedelta(s) ==
            NatToString(s / 86400) + (if s / 86400 == 1 then " day, " else " days, ") + Clock(s % 86400)
    ensures StartsWith(Timedelta(s), NatToString(s / 86400) + " day")
    ensures var clock := Clock(s % 86400);
            |clock| <= |Timedelta(s)| && Timedelta(s)[|Timedelta(s)| - |clock|..] == clock
  {
    var days := s / 86400;
    var clock := Clock(s % 86400);
    var head := NatToString(days) + " day";
    var pre := head + (if days == 1 then "" else "s") + ", ";
    assert IntToString(days) == NatToString(days);
    assert Timedelta(s) == pre + clock;
    assert pre == NatToString(days) + (if days == 1 then " day, " else " days, ");
    assert (pre + clock)[..|head|] == head;
    assert (pre + clock)[|pre|..] == clock;
  }
}
