/**
 * The countdown widget of js/app.js: each tick splits the milliseconds left
 * until the wedding into days, hours, minutes and seconds, or replaces the
 * countdown with the "big day is here" message once no time is left.
 */
module Countdown {
  import opened Arithmetic

  const SecondMs: int := 1000
  const MinuteMs: int := 60 * SecondMs
  const HourMs: int := 60 * MinuteMs
  const DayMs: int := 24 * HourMs

  /** What one tick shows. */
  datatype Reading =
    | Remaining(days: int, hours: int, minutes: int, seconds: int)
    | Finished

  /**
   * updateCountdown's arithmetic, with `difference` the wedding instant minus
   * now in milliseconds. For a positive difference JavaScript's `Math.floor`
   * of `/` and its `%` agree with Dafny's Euclidean operators.
   */
  function Decompose(difference: int): (r: Reading)
    ensures r.Remaining? <==> difference > 0
    ensures r.Remaining? ==>
      && r.days >= 0
      && 0 <= r.hours < 24 && 0 <= r.minutes < 60 && 0 <= r.seconds < 60
      && r.days * 86400 + r.hours * 3600 + r.minutes * 60 + r.seconds == difference / 1000
  {
    if difference > 0 then
      var days := difference / DayMs;
      var hours := (difference % DayMs) / HourMs;
      var minutes := (difference % HourMs) / MinuteMs;
      var seconds := (difference % MinuteMs) / SecondMs;
      DecomposeSumsToSeconds(difference);
      Remaining(days, hours, minutes, seconds)
    else
      Finished
  }

  /** The four fields recombine into the whole seconds of the difference. */
  lemma DecomposeSumsToSeconds(d: int)
    requires d > 0
    ensures var days := d / 86400000;
      var hours := (d % 86400000) / 3600000;
      var minutes := (d % 3600000) / 60000;
      var seconds := (d % 60000) / 1000;
      && 0 <= hours < 24 && 0 <= minutes < 60 && 0 <= seconds < 60
      && days * 86400 + hours * 3600 + minutes * 60 + seconds == d / 1000
  {
    var days := d / 86400000;
    var r1 := d % 86400000;
    var hours := r1 / 3600000;
    var r2 := r1 % 3600000;
    var minutes := r2 / 60000;
    var r3 := r2 % 60000;
    var seconds := r3 / 1000;
    var r4 := r3 % 1000;
    // d % 3600000 is the remainder left after the days and the hours
    assert d == 3600000 * (24 * days + hours) + r2;
    DivModUnique(d, 3600000, 24 * days + hours, r2);
    // d % 60000 is what is left after the minutes as well
    assert d == 60000 * (1440 * days + 60 * hours + minutes) + r3;
    DivModUnique(d, 60000, 1440 * days + 60 * hours + minutes, r3);
    assert d == 1000 * (days * 86400 + hours * 3600 + minutes * 60 + seconds) + r4;
    DivModUnique(d, 1000, days * 86400 + hours * 3600 + minutes * 60 + seconds, r4);
  }

  /** The countdown element and its #days, #hours, #minutes and #seconds children. */
  class CountdownDisplay {
    /** #countdown's content has been replaced by the finished message. */
    var finished: bool
    var days: int
    var hours: int
    var minutes: int
    var seconds: int

    constructor ()
      ensures !finished && days == 0 && hours == 0 && minutes == 0 && seconds == 0
    {
      finished := false;
      days, hours, minutes, seconds := 0, 0, 0, 0;
    }

    /**
     * One tick. A positive difference writes the four numbers (once the
     * message has replaced them they are detached, so they no longer show);
     * otherwise the message replaces the countdown and no number is written.
     */
    method Tick(difference: int)
      modifies this
      ensures difference > 0 ==>
        && Decompose(difference) == Remaining(days, hours, minutes, seconds)
        && finished == old(finished)
      ensures difference <= 0 ==>
        && finished
        && days == old(days) && hours == old(hours) && minutes == old(minutes) && seconds == old(seconds)
    {
      if difference > 0 {
        var reading := Decompose(difference);
        days, hours, minutes, seconds := reading.days, reading.hours, reading.minutes, reading.seconds;
      } else {
        finished := true;
      }
    }
  }
}
