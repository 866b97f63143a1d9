/**
 * The save step of src/screens/ReflectionCheckInScreen.tsx: the guard on the
 * mood passed from the previous screen, the normalised highlight, and the
 * upsert of today's entry into the store.
 */
module ReflectionCheckIn {
  import opened Wrappers
  import opened JsText
  import opened Entries
  import opened EntryStore

  const MoodMissing: string := "Mood not found. Please go back and select a mood."
  const SaveFailed: string := "Failed to save your reflection. Please try again."

  /** `if (!mood)`: the mood parameter is present and not 0. */
  predicate MoodGiven(mood: Option<int>) {
    mood.Some? && mood.value != 0
  }

  /**
   * `reflection.trim() || null`: nothing for a blank reflection, otherwise the
   * reflection without its surrounding whitespace.
   */
  function NormalizeHighlight(reflection: string): (h: Option<string>)
    ensures h.None? <==> forall k :: 0 <= k < |reflection| ==> IsJsWhitespace(reflection[k])
    ensures h.Some? ==> h.value == Trim(reflection) && h.value != ""
    ensures h.Some? ==> !IsJsWhitespace(h.value[0]) && !IsJsWhitespace(h.value[|h.value| - 1])
  {
    TrimEmptyIffBlank(reflection);
    var t := Trim(reflection);
    if t == "" then None else Some(t)
  }

  /** A stored highlight is already normal: normalising it again gives it back. */
  lemma NormalizeStable(reflection: string)
    ensures var h := NormalizeHighlight(reflection);
      h.Some? ==> NormalizeHighlight(h.value) == h
  {
    TrimIdempotent(reflection);
  }

  /** Whitespace around the reflection does not change what is saved. */
  lemma NormalizeIgnoresPadding(reflection: string)
    ensures NormalizeHighlight(" " + reflection + "\n") == NormalizeHighlight(reflection)
  {
    TrimIgnoresPadding(reflection, ' ', '\n');
  }

  /** The check-in screen's state; `mood` is the route parameter. */
  class ReflectionCheckInScreen {
    var mood: Option<int>
    var reflection: string
    var isSaving: bool
    var alert: Option<string>
    var navigatedToStats: bool

    constructor (routeMood: Option<int>)
      ensures mood == routeMood && reflection == "" && !isSaving
      ensures alert == None && !navigatedToStats
    {
      mood := routeMood;
      reflection := "";
      isSaving := false;
      alert := None;
      navigatedToStats := false;
    }

    /** `onChangeText={setReflection}`. */
    method SetReflection(text: string)
      modifies this
      ensures reflection == text
      ensures mood == old(mood) && isSaving == old(isSaving)
      ensures alert == old(alert) && navigatedToStats == old(navigatedToStats)
    {
      reflection := text;
    }

    /**
     * `handleSave` (src/screens/ReflectionCheckInScreen.tsx:29-63): without a
     * mood, an alert and no write; otherwise today's entry gets the mood and
     * the normalised reflection and the screen moves to the statistics, or,
     * when the write fails, an alert, the button enabled again and the store
     * as it was. `writeOk` is the outcome of the database write.
     */
    method HandleSave(store: Store, today: Day, createdAt: string, writeOk: bool)
      requires store.Valid()
      modifies this, store
      ensures store.Valid()
      ensures mood == old(mood) && reflection == old(reflection)
      ensures !MoodGiven(mood) ==>
        && alert == Some(MoodMissing) && isSaving == old(isSaving)
        && navigatedToStats == old(navigatedToStats)
        && store.rows == old(store.rows) && store.nextId == old(store.nextId)
      ensures MoodGiven(mood) && writeOk ==>
        && (store.rows, store.nextId) ==
             Upsert(old(store.rows), old(store.nextId), today, mood, NormalizeHighlight(reflection), createdAt)
        && store.GetEntryByDate(today).Some?
        && store.GetEntryByDate(today).value.mood == mood
        && store.GetEntryByDate(today).value.highlight == NormalizeHighlight(reflection)
        && isSaving && navigatedToStats && alert == old(alert)
      ensures MoodGiven(mood) && !writeOk ==>
        && alert == Some(SaveFailed) && !isSaving
        && navigatedToStats == old(navigatedToStats)
        && store.rows == old(store.rows) && store.nextId == old(store.nextId)
    {
      if !(mood.Some? && mood.value != 0) {
        alert := Some(MoodMissing);
        return;
      }
      isSaving := true;
      if writeOk {
        store.UpsertEntry(today, mood, NormalizeHighlight(reflection), createdAt);
        navigatedToStats := true;
      } else {
        alert := Some(SaveFailed);
        isSaving := false;
      }
    }

    /** The Save button, `disabled={isSaving}`: a press while saving does nothing. */
    method PressSave(store: Store, today: Day, createdAt: string, writeOk: bool)
      requires store.Valid()
      modifies this, store
      ensures store.Valid()
      ensures old(isSaving) ==>
        && isSaving && alert == old(alert) && navigatedToStats == old(navigatedToStats)
        && store.rows == old(store.rows) && store.nextId == old(store.nextId)
    {
      if !isSaving {
        HandleSave(store, today, createdAt, writeOk);
      }
    }
  }
}
