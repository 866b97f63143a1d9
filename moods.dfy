/** The mood taxonomy of src/constants/moods.ts and its lookup with a default. */
module Moods {
  import opened Wrappers

  /** One mood; `name` is the table's `label` field. */
  datatype Mood = Mood(value: int, emoji: string, name: string, color: string)

  /** The `MOODS` table, in its declared order. */
  const MOODS: seq<Mood> := [
    Mood(1, "\U{1F60A}", "Happy", "#F59E0B"),
    Mood(2, "\U{1F614}", "Disappointed", "#6B7280"),
    Mood(3, "\U{1F60C}", "Content", "#10B981"),
    Mood(4, "\U{1F622}", "Sad", "#3B82F6"),
    Mood(5, "\U{1F634}", "Tired", "#6366F1"),
    Mood(6, "\U{1F610}", "Normal", "#9CA3AF"),
    Mood(7, "\U{1F61F}", "Hurt", "#EF4444"),
    Mood(8, "\U{1F630}", "Anxious", "#EC4899"),
    Mood(9, "\U{1F620}", "Angry", "#DC2626"),
    Mood(10, "\U{1F971}", "Sleepy", "#8B5CF6"),
    Mood(11, "\U{1F60E}", "Confident", "#06B6D4"),
    Mood(12, "\U{1F611}", "Numb", "#64748B")
  ]

  /** `moods.find(m => m.value === value)`: the first mood with that value. */
  function Find(moods: seq<Mood>, value: int): (r: Option<Mood>)
    ensures r.Some? ==> r.value in moods && r.value.value == value
    ensures r.None? ==> forall m :: m in moods ==> m.value != value
    ensures r.Some? ==> exists i :: 0 <= i < |moods| && moods[i] == r.value
                          && forall k :: 0 <= k < i ==> moods[k].value != value
  {
    if |moods| == 0 then None
    else if moods[0].value == value then Some(moods[0])
    else
      var r := Find(moods[1..], value);
      assert moods == [moods[0]] + moods[1..];
      if r.Some? then
        var i :| 0 <= i < |moods[1..]| && moods[1..][i] == r.value
                 && forall k :: 0 <= k < i ==> moods[1..][k].value != value;
        assert moods[i + 1] == r.value;
        assert forall k :: 0 <= k < i + 1 ==> moods[k].value != value by {
          forall k | 0 <= k < i + 1 ensures moods[k].value != value {
            if k > 0 {
              assert moods[k] == moods[1..][k - 1];
            }
          }
        }
        r
      else r
  }

  /** The table's values are exactly 1..12, in order, so they are pairwise distinct. */
  lemma MoodValues()
    ensures |MOODS| == 12
    ensures forall i :: 0 <= i < |MOODS| ==> MOODS[i].value == i + 1
    ensures forall i, j :: 0 <= i < j < |MOODS| ==> MOODS[i].value != MOODS[j].value
    ensures MOODS[5].name == "Normal" && MOODS[5].value == 6
  {
  }

  /** The lookup in the table finds value `v` exactly for 1..12, at index `v - 1`. */
  lemma FindInTable(value: int)
    ensures 1 <= value <= 12 ==> Find(MOODS, value) == Some(MOODS[value - 1])
    ensures !(1 <= value <= 12) ==> Find(MOODS, value) == None
  {
    MoodValues();
    if 1 <= value <= 12 {
      assert MOODS[value - 1] in MOODS;
      var r := Find(MOODS, value);
      var i :| 0 <= i < |MOODS| && MOODS[i] == r.value;
    }
  }

  /**
   * `getMoodById`: the mood whose value is `value` for 1..12, otherwise the
   * default `MOODS[5]` ('Normal'); always an element of the table.
   */
  function GetMoodById(value: int): (m: Mood)
    ensures m in MOODS
    ensures 1 <= value <= 12 ==> m == MOODS[value - 1] && m.value == value
    ensures !(1 <= value <= 12) ==> m == MOODS[5]
  {
    FindInTable(value);
    match Find(MOODS, value)
    case Some(found) => found
    case None => MOODS[5]
  }
}
