/**
 * The calendar of src/screens/MoodScreen.tsx: the fold of the loaded entries
 * into the marked days, each coloured by its mood, and the two counters.
 */
module MoodCalendar {
  import opened Wrappers
  import opened Seqs
  import opened Entries
  import opened Moods

  /** `if (entry.mood)`: a mood that is neither null nor 0. */
  predicate HasMood(e: Entry) {
    e.mood.Some? && e.mood.value != 0
  }

  /** The colour a day with a mood is marked with: its mood's, or the default's. */
  function MoodColor(e: Entry): (c: string)
    requires HasMood(e)
    ensures 1 <= e.mood.value <= 12 ==> c == MOODS[e.mood.value - 1].color
    ensures !(1 <= e.mood.value <= 12) ==> c == MOODS[5].color
  {
    GetMoodById(e.mood.value).color
  }

  /**
   * The marked days after the forEach over `entries`: each entry with a mood,
   * in order, sets the key of its day to its colour.
   */
  ghost function Marked(entries: seq<Entry>): map<Day, string>
    decreases |entries|
  {
    if entries == [] then map[]
    else
      var e := entries[|entries| - 1];
      var m := Marked(entries[..|entries| - 1]);
      if HasMood(e) then m[e.date := MoodColor(e)] else m
  }

  /** A day is marked exactly when some entry of that day has a mood. */
  lemma {:induction false} MarkedKeys(entries: seq<Entry>, d: Day)
    ensures d in Marked(entries) <==> exists e :: e in entries && HasMood(e) && e.date == d
    decreases |entries|
  {
    if entries != [] {
      var init := entries[..|entries| - 1];
      var last := entries[|entries| - 1];
      assert entries == init + [last];
      MarkedKeys(init, d);
      if d in Marked(entries) && !(HasMood(last) && last.date == d) {
        var e :| e in init && HasMood(e) && e.date == d;
        assert e in entries;
      }
    }
  }

  /** With one entry per day (as the store keeps them), a marked day has its own entry's mood colour. */
  lemma {:induction false} MarkedColor(entries: seq<Entry>, i: nat)
    requires UniqueDates(entries)
    requires i < |entries| && HasMood(entries[i])
    ensures entries[i].date in Marked(entries)
    ensures Marked(entries)[entries[i].date] == MoodColor(entries[i])
    decreases |entries|
  {
    if i < |entries| - 1 {
      var init := entries[..|entries| - 1];
      assert init[i] == entries[i];
      assert entries[|entries| - 1].date != entries[i].date;
      MarkedColor(init, i);
    }
  }

  /** With one entry per day, the last entry's day is no earlier entry's. */
  lemma LastDateIsNew(entries: seq<Entry>)
    requires UniqueDates(entries) && entries != []
    ensures forall e | e in entries[..|entries| - 1] :: e.date != entries[|entries| - 1].date
  {
    forall e | e in entries[..|entries| - 1] ensures e.date != entries[|entries| - 1].date {
      var k :| 0 <= k < |entries| - 1 && entries[k] == e;
    }
  }

  /** With one entry per day, the number of marked days is the `withMood` counter. */
  lemma {:induction false} MarkedCount(entries: seq<Entry>)
    requires UniqueDates(entries)
    ensures |Marked(entries).Keys| == |Filter(entries, HasMood)|
    decreases |entries|
  {
    if entries != [] {
      var init := entries[..|entries| - 1];
      var last := entries[|entries| - 1];
      assert entries == init + [last];
      assert UniqueDates(init);
      MarkedCount(init);
      FilterSnoc(init, last, HasMood);
      if HasMood(last) {
        MarkedKeys(init, last.date);
        LastDateIsNew(entries);
        assert Marked(entries).Keys == Marked(init).Keys + {last.date};
      }
    }
  }

  /** Two entries of the same day, both with a mood: one marked day, but a count of two. */
  lemma DuplicateDayCountsTwice(d: Day)
    ensures var s := [Entry(1, d, Some(1), None, ""), Entry(2, d, Some(1), None, "")];
      |Marked(s).Keys| == 1 && |Filter(s, HasMood)| == 2
  {
    var e := Entry(1, d, Some(1), None, "");
    var s := [e, Entry(2, d, Some(1), None, "")];
    assert s[..1] == [e];
    assert [e][..0] == [];
    assert Marked([e][..0]) == map[];
    var one := Marked([e]);
    assert one == map[][d := MoodColor(e)];
    assert Marked(s) == one[d := MoodColor(s[1])];
    assert Marked(s).Keys == {d};
    FilterSnoc([e], s[1], HasMood);
    FilterSnoc([], e, HasMood);
    assert [] + [e] == [e];
    assert [e] + [s[1]] == s;
  }

  /** One more entry of the forEach: the fold and the count over the longer prefix. */
  lemma MarkedStep(entries: seq<Entry>, i: nat)
    requires i < |entries|
    ensures Marked(entries[..i + 1]) ==
      if HasMood(entries[i]) then Marked(entries[..i])[entries[i].date := MoodColor(entries[i])]
      else Marked(entries[..i])
    ensures |Filter(entries[..i + 1], HasMood)| ==
      |Filter(entries[..i], HasMood)| + if HasMood(entries[i]) then 1 else 0
  {
    assert entries[..i + 1][..i] == entries[..i];
    assert entries[..i + 1] == entries[..i] + [entries[i]];
    FilterSnoc(entries[..i], entries[i], HasMood);
  }

  /** The calendar screen's state. */
  class MoodScreen {
    var markedDates: map<Day, string>
    var total: nat
    var withMood: nat

    constructor ()
      ensures markedDates == map[] && total == 0 && withMood == 0
    {
      markedDates := map[];
      total := 0;
      withMood := 0;
    }

    /**
     * `loadMoodData` (src/screens/MoodScreen.tsx:13-39) over the entries
     * `getAllEntries` returned: the marked days, the number of entries, and
     * the number of entries with a mood, never more than all of them.
     */
    method LoadMoodData(entries: seq<Entry>)
      modifies this
      ensures markedDates == Marked(entries)
      ensures total == |entries| && withMood == |Filter(entries, HasMood)|
      ensures withMood <= total
      ensures forall d :: d in markedDates <==> exists e :: e in entries && HasMood(e) && e.date == d
      ensures UniqueDates(entries) ==> |markedDates.Keys| == withMood
    {
      var marked: map<Day, string> := map[];
      var moodCount := 0;
      var i := 0;
      while i < |entries|
        invariant 0 <= i <= |entries|
        invariant marked == Marked(entries[..i])
        invariant moodCount == |Filter(entries[..i], HasMood)|
      {
        var entry := entries[i];
        MarkedStep(entries, i);
        if entry.mood.Some? && entry.mood.value != 0 {
          var mood := GetMoodById(entry.mood.value);
          marked := marked[entry.date := mood.color];
          moodCount := moodCount + 1;
        }
        i := i + 1;
      }
      assert entries[..i] == entries;
      markedDates := marked;
      total := |entries|;
      withMood := moodCount;
      forall d ensures d in markedDates <==> exists e :: e in entries && HasMood(e) && e.date == d {
        MarkedKeys(entries, d);
      }
      if UniqueDates(entries) {
        MarkedCount(entries);
      }
    }
  }
}
