/** A duration in milliseconds split into days, hours, minutes and seconds. */
module Periods {

  /** JavaScript's `%`: the remainder takes the sign of the dividend. */
  function JsRem(a: int, b: int): (r: int)
    requires b > 0
    ensures a >= 0 ==> 0 <= r < b
    ensures a < 0 ==> -b < r <= 0
    ensures a == (if a >= 0 then a / b else -((-a) / b)) * b + r
  {
    if a >= 0 then a % b else -((-a) % b)
  }

  /** The four fields a `Period` holds. */
  datatype Span = Span(days: int, hours: int, minutes: int, seconds: int)

  /** What the constructor stores for `ms`: `Math.floor` on the way up, the
      remainder on the way down. */
  function Split(ms: int): (r: Span)
    ensures ms >= 0 ==> r.days >= 0 && r.hours >= 0 && r.minutes >= 0 && r.seconds >= 0
    ensures ms < 0 ==> r.days < 0 && r.hours <= 0 && r.minutes <= 0 && r.seconds <= 0
  {
    var totalSeconds := ms / 1000;
    var totalMinutes := totalSeconds / 60;
    var totalHours := totalMinutes / 60;
    Span(totalHours / 24, JsRem(totalHours, 24), JsRem(totalMinutes, 60), JsRem(totalSeconds, 60))
  }

  /** The seconds a span stands for. */
  function TotalSeconds(s: Span): int
  {
    s.days * 86400 + s.hours * 3600 + s.minutes * 60 + s.seconds
  }

  /** For a non-negative duration every field is in range, the fields add
      back up to the whole seconds, and the days are the whole days. */
  lemma SplitSpec(ms: int)
    requires ms >= 0
    ensures var s := Split(ms);
      && 0 <= s.seconds < 60 && 0 <= s.minutes < 60 && 0 <= s.hours < 24 && s.days >= 0
      && TotalSeconds(s) == ms / 1000
      && s.days == ms / 86400000
  {
    var totalSeconds := ms / 1000;
    var totalMinutes := totalSeconds / 60;
    var totalHours := totalMinutes / 60;
    assert totalSeconds == totalMinutes * 60 + totalSeconds % 60;
    assert totalMinutes == totalHours * 60 + totalMinutes % 60;
    assert totalHours == (totalHours / 24) * 24 + totalHours % 24;
    assert ms == (totalHours / 24) * 86400000 + (ms - (totalHours / 24) * 86400000);
  }

  /** The in-range fields that add up to the whole seconds are unique: for
      a non-negative duration the split is the usual one. */
  lemma SplitUnique(ms: int, s: Span)
    requires ms >= 0
    requires 0 <= s.seconds < 60 && 0 <= s.minutes < 60 && 0 <= s.hours < 24
    requires TotalSeconds(s) == ms / 1000
    ensures Split(ms) == s
  {
    var totalSeconds := ms / 1000;
    var totalMinutes := s.days * 1440 + s.hours * 60 + s.minutes;
    var totalHours := s.days * 24 + s.hours;
    assert totalSeconds == totalMinutes * 60 + s.seconds;
    assert totalSeconds / 60 == totalMinutes && totalSeconds % 60 == s.seconds;
    assert totalMinutes == totalHours * 60 + s.minutes;
    assert totalMinutes / 60 == totalHours && totalMinutes % 60 == s.minutes;
    assert totalHours / 24 == s.days && totalHours % 24 == s.hours;
  }

  /** A negative duration splits into fields that are each rounded away
      from zero: one millisecond before zero reads as minus one of each. */
  lemma SplitNegative()
    ensures Split(-1) == Span(-1, -1, -1, -1)
    ensures TotalSeconds(Split(-1)) != -1 / 1000
  {
  }

  class Period {
    var days: int
    var hours: int
    var minutes: int
    var seconds: int

    /** The split as the constructor performs it, one field at a time. */
    constructor(ms: int)
      ensures Span(days, hours, minutes, seconds) == Split(ms)
    {
      days, hours, minutes, seconds := 0, 0, 0, 0;
      new;
      seconds := ms / 1000;
      minutes := seconds / 60;
      seconds := JsRem(seconds, 60);
      hours := minutes / 60;
      minutes := JsRem(minutes, 60);
      days := hours / 24;
      hours := JsRem(hours, 24);
    }

    method SetDays(d: int)
      modifies this`days
      ensures days == d
      ensures hours == old(hours) && minutes == old(minutes) && seconds == old(seconds)
    {
      days := d;
    }

    method SetHours(h: int)
      modifies this`hours
      ensures hours == h
      ensures days == old(days) && minutes == old(minutes) && seconds == old(seconds)
    {
      hours := h;
    }

    method SetMinutes(m: int)
      modifies this`minutes
      ensures minutes == m
      ensures days == old(days) && hours == old(hours) && seconds == old(seconds)
    {
      minutes := m;
    }

    method SetSeconds(s: int)
      modifies this`seconds
      ensures seconds == s
      ensures days == old(days) && hours == old(hours) && minutes == old(minutes)
    {
      seconds := s;
    }
  }
}
