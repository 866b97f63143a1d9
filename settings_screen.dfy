/**
 * The reminder-time part of src/screens/SettingsScreen.tsx: the `formatTime`
 * label, the preset options and which of them is highlighted.
 */
module Settings {
  import opened JsText
  import opened TimePicker

  /** The reminder time before any saved one is loaded: 21:00. */
  const DefaultHour: int := 21
  const DefaultMinute: int := 0

  /**
   * `formatTime` (src/screens/SettingsScreen.tsx:81-86): the 12-hour label,
   * written out separately from the picker's.
   */
  function FormatTime(hour: int, minute: int): string {
    var period := if hour >= 12 then "PM" else "AM";
    var displayHour := if JsRemainder(hour, 12) == 0 then 12 else JsRemainder(hour, 12);
    var displayMinute := PadStart(IntToString(minute), 2, '0');
    IntToString(displayHour) + ":" + displayMinute + " " + period
  }

  /** The settings label and the picker's label agree on every time. */
  lemma FormatTimeAgrees(hour: int, minute: int)
    ensures FormatTime(hour, minute) == FormatDisplayTime(hour, minute)
  {
  }

  /**
   * For a time on the wheels, the settings label shows the 12-hour dial hour,
   * the padded minute and "PM" exactly from noon on.
   */
  lemma FormatTimeShows(hour: int, minute: int)
    requires 0 <= hour <= 23 && 0 <= minute <= 59
    ensures var r := FormatTime(hour, minute);
      7 <= |r| <= 8 && ShowsTime(r, DisplayHour(hour), minute, Period(hour))
  {
    FormatTimeAgrees(hour, minute);
    DisplayTimeShows(hour, minute);
  }

  /** A preset reminder time and the label it is shown with. */
  datatype TimeOption = TimeOption(hour: int, minute: int, text: string)

  /** The presets of src/screens/SettingsScreen.tsx:195-200, in order. */
  const TimeOptions: seq<TimeOption> := [
    TimeOption(8, 0, "8:00 AM"),
    TimeOption(12, 0, "12:00 PM"),
    TimeOption(18, 0, "6:00 PM"),
    TimeOption(21, 0, "9:00 PM"),
    TimeOption(22, 0, "10:00 PM"),
    TimeOption(23, 0, "11:00 PM")
  ]

  /** `isSelected` (src/screens/SettingsScreen.tsx:115): both parts equal the current setting. */
  predicate IsSelected(option: TimeOption, currentHour: int, currentMinute: int) {
    option.hour == currentHour && option.minute == currentMinute
  }

  /** The padded minute of a preset. */
  lemma ZeroMinute()
    ensures PadStart(IntToString(0), 2, '0') == "00"
  {
    assert IntToString(0) == "0";
  }

  /** The label of a time on the hour, from the decimal digits of its dial hour. */
  lemma OnTheHour(hour: int, dial: int, digits: string, text: string)
    requires 0 <= hour <= 23 && dial == (if JsRemainder(hour, 12) == 0 then 12 else JsRemainder(hour, 12))
    requires IntToString(dial) == digits
    requires text == digits + ":" + "00" + " " + (if hour >= 12 then "PM" else "AM")
    ensures FormatTime(hour, 0) == text
  {
    ZeroMinute();
  }

  /** The decimal digits of a two-digit dial hour. */
  lemma TwoDigitDial(n: nat)
    requires 10 <= n <= 12
    ensures IntToString(n) == ['1', DigitChar(n - 10)]
  {
    assert NatToString(n) == NatToString(1) + [DigitChar(n % 10)];
  }

  /** Preset 0: 08:00 is shown as "8:00 AM". */
  lemma Preset0Label()
    ensures TimeOptions[0].text == FormatTime(TimeOptions[0].hour, TimeOptions[0].minute)
  {
    assert TimeOptions[0] == TimeOption(8, 0, "8:00 AM");
    OnTheHour(8, 8, "8", "8:00 AM");
  }

  /** Preset 1: 12:00 is shown as "12:00 PM". */
  lemma Preset1Label()
    ensures TimeOptions[1].text == FormatTime(TimeOptions[1].hour, TimeOptions[1].minute)
  {
    assert TimeOptions[1] == TimeOption(12, 0, "12:00 PM");
    TwoDigitDial(12);
    OnTheHour(12, 12, "12", "12:00 PM");
  }

  /** Preset 2: 18:00 is shown as "6:00 PM". */
  lemma Preset2Label()
    ensures TimeOptions[2].text == FormatTime(TimeOptions[2].hour, TimeOptions[2].minute)
  {
    assert TimeOptions[2] == TimeOption(18, 0, "6:00 PM");
    OnTheHour(18, 6, "6", "6:00 PM");
  }

  /** Preset 3: 21:00 is shown as "9:00 PM". */
  lemma Preset3Label()
    ensures TimeOptions[3].text == FormatTime(TimeOptions[3].hour, TimeOptions[3].minute)
  {
    assert TimeOptions[3] == TimeOption(21, 0, "9:00 PM");
    OnTheHour(21, 9, "9", "9:00 PM");
  }

  /** Preset 4: 22:00 is shown as "10:00 PM". */
  lemma Preset4Label()
    ensures TimeOptions[4].text == FormatTime(TimeOptions[4].hour, TimeOptions[4].minute)
  {
    assert TimeOptions[4] == TimeOption(22, 0, "10:00 PM");
    TwoDigitDial(10);
    OnTheHour(22, 10, "10", "10:00 PM");
  }

  /** Preset 5: 23:00 is shown as "11:00 PM". */
  lemma Preset5Label()
    ensures TimeOptions[5].text == FormatTime(TimeOptions[5].hour, TimeOptions[5].minute)
  {
    assert TimeOptions[5] == TimeOption(23, 0, "11:00 PM");
    TwoDigitDial(11);
    OnTheHour(23, 11, "11", "11:00 PM");
  }

  /** The fixed label of preset `i` is the label `formatTime` gives its time. */
  lemma OptionLabelIsFormatted(i: nat)
    requires i < |TimeOptions|
    ensures TimeOptions[i].text == FormatTime(TimeOptions[i].hour, TimeOptions[i].minute)
  {
    if i == 0 {
      Preset0Label();
    } else if i == 1 {
      Preset1Label();
    } else if i == 2 {
      Preset2Label();
    } else if i == 3 {
      Preset3Label();
    } else if i == 4 {
      Preset4Label();
    } else {
      Preset5Label();
    }
  }

  /** The fixed label of every preset is the label `formatTime` gives its time. */
  lemma OptionLabelsAreFormatted()
    ensures forall i :: 0 <= i < |TimeOptions| ==>
      TimeOptions[i].text == FormatTime(TimeOptions[i].hour, TimeOptions[i].minute)
  {
    forall i | 0 <= i < |TimeOptions|
      ensures TimeOptions[i].text == FormatTime(TimeOptions[i].hour, TimeOptions[i].minute)
    {
      OptionLabelIsFormatted(i);
    }
  }

  /** The presets are distinct times, so at most one is highlighted. */
  lemma AtMostOneSelected(currentHour: int, currentMinute: int)
    ensures forall i, j :: 0 <= i < j < |TimeOptions| ==>
      !(IsSelected(TimeOptions[i], currentHour, currentMinute) && IsSelected(TimeOptions[j], currentHour, currentMinute))
  {
  }

  /** Different times on the wheels never get the same settings label. */
  lemma FormatTimeInjective(h1: int, m1: int, h2: int, m2: int)
    requires 0 <= h1 <= 23 && 0 <= m1 <= 59 && 0 <= h2 <= 23 && 0 <= m2 <= 59
    requires FormatTime(h1, m1) == FormatTime(h2, m2)
    ensures h1 == h2 && m1 == m2
  {
    FormatTimeAgrees(h1, m1);
    FormatTimeAgrees(h2, m2);
    DisplayTimeInjective(h1, m1, h2, m2);
  }

  /** Every preset is a time the wheels can show, on the hour. */
  lemma PresetOnTheWheels(i: nat)
    requires i < |TimeOptions|
    ensures 0 <= TimeOptions[i].hour <= 23 && TimeOptions[i].minute == 0
  {
  }

  /**
   * An option on the wheels whose label is its own `formatTime` is
   * highlighted exactly when its label is `formatTime` of the setting.
   */
  lemma SelectedIffLabelMatches(option: TimeOption, currentHour: int, currentMinute: int)
    requires 0 <= option.hour <= 23 && 0 <= option.minute <= 59
    requires option.text == FormatTime(option.hour, option.minute)
    requires 0 <= currentHour <= 23 && 0 <= currentMinute <= 59
    ensures IsSelected(option, currentHour, currentMinute)
        <==> option.text == FormatTime(currentHour, currentMinute)
  {
    if option.text == FormatTime(currentHour, currentMinute) {
      FormatTimeInjective(option.hour, option.minute, currentHour, currentMinute);
    }
  }

  /**
   * For a time on the wheels, a preset is highlighted exactly when its label
   * is the "Current:" text, `formatTime` of the setting.
   */
  lemma SelectedIffSameLabel(i: nat, currentHour: int, currentMinute: int)
    requires i < |TimeOptions|
    requires 0 <= currentHour <= 23 && 0 <= currentMinute <= 59
    ensures IsSelected(TimeOptions[i], currentHour, currentMinute)
        <==> TimeOptions[i].text == FormatTime(currentHour, currentMinute)
  {
    OptionLabelIsFormatted(i);
    PresetOnTheWheels(i);
    SelectedIffLabelMatches(TimeOptions[i], currentHour, currentMinute);
  }

  /** With the default setting, the 9 PM preset and no other is highlighted. */
  lemma DefaultSelectsNinePm()
    ensures forall i :: 0 <= i < |TimeOptions| ==>
      (IsSelected(TimeOptions[i], DefaultHour, DefaultMinute) <==> TimeOptions[i].text == "9:00 PM")
  {
  }
}
