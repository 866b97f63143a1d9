/**
 * The hour and minute wheels of src/components/TimePicker.tsx: the value
 * lists, the two-digit labels, the 12-hour display, and the scroll handlers
 * that clamp the picked index into range.
 */
module TimePicker {
  import opened JsText

  /** `generateHours`: the hours of the 24-hour clock, the value at each index being the index. */
  function GenerateHours(): (r: seq<int>)
    ensures |r| == 24 && forall i :: 0 <= i < 24 ==> r[i] == i
    ensures forall v :: v in r <==> 0 <= v <= 23
  {
    var r := seq(24, i => i);
    assert forall v :: v in r <==> 0 <= v <= 23 by {
      forall v ensures v in r <==> 0 <= v <= 23 {
        if v in r {
          var i :| 0 <= i < |r| && r[i] == v;
        }
        if 0 <= v <= 23 {
          assert r[v] == v;
        }
      }
    }
    r
  }

  /** `generateMinutes`: the minutes 0..59, the value at each index being the index. */
  function GenerateMinutes(): (r: seq<int>)
    ensures |r| == 60 && forall i :: 0 <= i < 60 ==> r[i] == i
    ensures forall v :: v in r <==> 0 <= v <= 59
  {
    var r := seq(60, i => i);
    assert forall v :: v in r <==> 0 <= v <= 59 by {
      forall v ensures v in r <==> 0 <= v <= 59 {
        if v in r {
          var i :| 0 <= i < |r| && r[i] == v;
        }
        if 0 <= v <= 59 {
          assert r[v] == v;
        }
      }
    }
    r
  }

  /** `n.toString().padStart(2, '0')`, the label of a wheel item. */
  function TwoDigits(n: int): (r: string)
    ensures 0 <= n < 100 ==> |r| == 2 && AllDigits(r) && DigitsValue(r) == n
    ensures |r| >= 2
  {
    if 0 <= n < 100 then PadTwoDigits(n); PadStart(IntToString(n), 2, '0')
    else PadStart(IntToString(n), 2, '0')
  }

  /** `formatHour` (src/components/TimePicker.tsx:31-33). */
  function FormatHour(hour: int): (r: string)
    ensures 0 <= hour < 100 ==> |r| == 2 && AllDigits(r) && DigitsValue(r) == hour
  {
    TwoDigits(hour)
  }

  /** `formatMinute` (src/components/TimePicker.tsx:35-37). */
  function FormatMinute(minute: int): (r: string)
    ensures 0 <= minute < 100 ==> |r| == 2 && AllDigits(r) && DigitsValue(r) == minute
  {
    TwoDigits(minute)
  }

  /** `hour >= 12 ? 'PM' : 'AM'`. */
  function Period(hour: int): (p: string)
    ensures p == "PM" <==> hour >= 12
    ensures p == "AM" <==> hour < 12
  {
    if hour >= 12 then "PM" else "AM"
  }

  /**
   * `hour % 12 || 12`, with JavaScript's truncating `%`: the hour on the
   * 12-hour dial. Midnight and noon show as 12; a negative hour, which the
   * wheel never produces, gives 12 or a negative number.
   */
  function DisplayHour(hour: int): (d: int)
    ensures 0 <= hour ==> 1 <= d <= 12 && d % 12 == hour % 12
    ensures hour == 0 || hour == 12 ==> d == 12
    ensures 1 <= hour <= 12 ==> d == hour
    ensures 13 <= hour <= 23 ==> d == hour - 12
    ensures hour < 0 ==> d == 12 || -12 < d < 0
  {
    var r := JsRemainder(hour, 12);
    if r == 0 then 12 else r
  }

  /**
   * A time label `H:MM PP`: the hour in decimal without a leading zero, a
   * colon, two minute digits, a space and the two-letter period.
   */
  ghost predicate ShowsTime(r: string, displayHour: nat, minute: nat, period: string) {
    && |r| >= 7
    && var k := |r| - 6;
       && AllDigits(r[..k]) && DigitsValue(r[..k]) == displayHour && r[0] != '0'
       && r[k] == ':'
       && AllDigits(r[k + 1..k + 3]) && DigitsValue(r[k + 1..k + 3]) == minute
       && r[k + 3] == ' ' && r[k + 4..] == period
  }

  /** Gluing the parts of a label: an hour without leading zero, two minute digits, a period. */
  lemma GlueShowsTime(h: string, mm: string, period: string, displayHour: nat, minute: nat)
    requires 1 <= |h| <= 2 && AllDigits(h) && DigitsValue(h) == displayHour && h[0] != '0'
    requires |mm| == 2 && AllDigits(mm) && DigitsValue(mm) == minute
    requires |period| == 2
    ensures var r := h + ":" + mm + " " + period;
      7 <= |r| <= 8 && ShowsTime(r, displayHour, minute, period)
  {
    var r := h + ":" + mm + " " + period;
    var k := |h|;
    assert r[..k] == h;
    assert r[k + 1..k + 3] == mm;
    assert r[k + 4..] == period;
  }

  /** `formatDisplayTime` (src/components/TimePicker.tsx:39-43). */
  function FormatDisplayTime(hour: int, minute: int): string {
    IntToString(DisplayHour(hour)) + ":" + FormatMinute(minute) + " " + Period(hour)
  }

  /**
   * For a time on the wheels, the display label shows the 12-hour dial hour,
   * the padded minute and "PM" exactly from noon on.
   */
  lemma DisplayTimeShows(hour: int, minute: int)
    requires 0 <= hour <= 23 && 0 <= minute <= 59
    ensures var r := FormatDisplayTime(hour, minute);
      7 <= |r| <= 8 && ShowsTime(r, DisplayHour(hour), minute, Period(hour))
  {
    NatToStringLength(DisplayHour(hour));
    GlueShowsTime(IntToString(DisplayHour(hour)), FormatMinute(minute), Period(hour), DisplayHour(hour), minute);
  }

  /** The dial hour and the period together determine the hour of the day. */
  lemma DialAndPeriodDetermineHour(h1: int, h2: int)
    requires 0 <= h1 <= 23 && 0 <= h2 <= 23
    requires DisplayHour(h1) == DisplayHour(h2) && Period(h1) == Period(h2)
    ensures h1 == h2
  {
  }

  /** Different times on the wheels never get the same label. */
  lemma DisplayTimeInjective(h1: int, m1: int, h2: int, m2: int)
    requires 0 <= h1 <= 23 && 0 <= m1 <= 59 && 0 <= h2 <= 23 && 0 <= m2 <= 59
    requires FormatDisplayTime(h1, m1) == FormatDisplayTime(h2, m2)
    ensures h1 == h2 && m1 == m2
  {
    var r := FormatDisplayTime(h1, m1);
    DisplayTimeShows(h1, m1);
    DisplayTimeShows(h2, m2);
    assert ShowsTime(r, DisplayHour(h1), m1, Period(h1));
    assert ShowsTime(r, DisplayHour(h2), m2, Period(h2));
    DialAndPeriodDetermineHour(h1, h2);
  }

  /** Midnight shows as 12 AM. */
  lemma MidnightExample()
    ensures FormatDisplayTime(0, 5) == "12:05 AM"
  {
    assert DisplayHour(0) == 12 && Period(0) == "AM";
    assert IntToString(12) == "12";
    assert FormatMinute(5) == "05";
  }

  /** Noon shows as 12 PM. */
  lemma NoonExample()
    ensures FormatDisplayTime(12, 0) == "12:00 PM"
  {
    assert DisplayHour(12) == 12 && Period(12) == "PM";
    assert IntToString(12) == "12";
    assert FormatMinute(0) == "00";
  }

  /** `Math.max(0, Math.min(hi, index))`: the wheel index kept in `[0, hi]`. */
  function Clamp(index: int, hi: nat): (r: nat)
    ensures r <= hi
    ensures 0 <= index <= hi ==> r == index
    ensures index < 0 ==> r == 0
    ensures index > hi ==> r == hi
  {
    if index < 0 then 0 else if index > hi then hi else index
  }

  /** Clamping a clamped index changes nothing, and clamping keeps the order of indices. */
  lemma ClampStable(i: int, j: int, hi: nat)
    ensures Clamp(Clamp(i, hi), hi) == Clamp(i, hi)
    ensures i <= j ==> Clamp(i, hi) <= Clamp(j, hi)
  {
  }

  /** The picked value is the item at the clamped index, so it is always on the wheel. */
  lemma ScrollPicksItem(index: int)
    ensures GenerateHours()[Clamp(index, 23)] == Clamp(index, 23)
    ensures GenerateMinutes()[Clamp(index, 59)] == Clamp(index, 59)
  {
  }

  /**
   * The picker's state. The snapped index `Math.round(y / ITEM_HEIGHT)` of a
   * scroll is given to the handlers; `onTimeChange` runs when a value
   * changes, which the handlers report.
   */
  class TimePickerState {
    var hour: int
    var minute: int

    constructor (initialHour: int, initialMinute: int)
      ensures hour == initialHour && minute == initialMinute
    {
      hour := initialHour;
      minute := initialMinute;
    }

    /** `handleHourScroll` (src/components/TimePicker.tsx:78-85). */
    method HandleHourScroll(index: int) returns (changed: bool)
      modifies this
      ensures hour == Clamp(index, 23) && minute == old(minute)
      ensures changed <==> Clamp(index, 23) != old(hour)
    {
      var newHour := Clamp(index, 23);
      changed := newHour != hour;
      if changed {
        hour := newHour;
      }
    }

    /** `handleMinuteScroll` (src/components/TimePicker.tsx:87-94). */
    method HandleMinuteScroll(index: int) returns (changed: bool)
      modifies this
      ensures minute == Clamp(index, 59) && hour == old(hour)
      ensures changed <==> Clamp(index, 59) != old(minute)
    {
      var newMinute := Clamp(index, 59);
      changed := newMinute != minute;
      if changed {
        minute := newMinute;
      }
    }
  }
}
