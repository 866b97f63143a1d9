/**
 * The `entries` table of src/db/database.ts and its operations.
 *
 * The table is the sequence of its rows in insertion order together with the
 * AUTOINCREMENT counter: `nextId` is the id the next inserted row receives.
 * It starts at 1 and, as with SQLite's `sqlite_sequence`, is not reset when
 * rows are deleted, so ids are never reused. `issued` records every id ever
 * handed out.
 */
module EntryStore {
  import opened Wrappers
  import opened Seqs
  import opened Entries
  import opened Streaks

  /** The schema's guarantees: unique dates, distinct ids, ids below the counter. */
  ghost predicate ValidTable(rows: seq<Entry>, nextId: nat, issued: set<nat>) {
    && nextId >= 1
    && UniqueDates(rows)
    && (forall i, j :: 0 <= i < j < |rows| ==> rows[i].id != rows[j].id)
    && (forall e :: e in rows ==> e.id in issued)
    && (forall id :: id in issued ==> 1 <= id < nextId)
  }

  /** `SELECT * FROM entries WHERE date = ?`: the first row with that date, or null. */
  function FindByDate(rows: seq<Entry>, d: Day): (r: Option<Entry>)
    ensures r.Some? ==> r.value in rows && r.value.date == d
    ensures r.None? <==> d !in DateSet(rows)
  {
    if |rows| == 0 then None
    else if rows[0].date == d then Some(rows[0])
    else
      var r := FindByDate(rows[1..], d);
      assert rows == [rows[0]] + rows[1..];
      r
  }

  /** With unique dates the lookup finds the one row with that date. */
  lemma FindByDateUnique(rows: seq<Entry>, d: Day, e: Entry)
    requires UniqueDates(rows) && e in rows && e.date == d
    ensures FindByDate(rows, d) == Some(e)
  {
    var f := FindByDate(rows, d).value;
    var i :| 0 <= i < |rows| && rows[i] == e;
    var j :| 0 <= j < |rows| && rows[j] == f;
    assert i == j;
  }

  /** `UPDATE entries SET mood = ?, highlight = ?, created_at = ? WHERE date = ?`. */
  function UpdateWhereDate(rows: seq<Entry>, d: Day, mood: Option<int>, highlight: Option<string>, createdAt: string): (r: seq<Entry>)
    ensures |r| == |rows| && DateSet(r) == DateSet(rows)
    ensures forall i :: 0 <= i < |rows| ==> r[i].id == rows[i].id && r[i].date == rows[i].date
  {
    var r := seq(|rows|, i requires 0 <= i < |rows| =>
      if rows[i].date == d then rows[i].(mood := mood, highlight := highlight, createdAt := createdAt) else rows[i]);
    assert DateSet(r) == DateSet(rows) by {
      forall x | x in DateSet(r) ensures x in DateSet(rows) {
        var e :| e in r && e.date == x;
        var i :| 0 <= i < |r| && r[i] == e;
        assert rows[i] in rows;
      }
      forall x | x in DateSet(rows) ensures x in DateSet(r) {
        var e :| e in rows && e.date == x;
        var i :| 0 <= i < |rows| && rows[i] == e;
        assert r[i] in r;
      }
    }
    r
  }

  /**
   * `upsertEntry` (src/db/database.ts:66-86): rewrite mood, highlight and
   * `created_at` of the row for `d` when there is one, otherwise append a row
   * with the next id. Returns the new rows and the new counter.
   */
  function Upsert(rows: seq<Entry>, nextId: nat, d: Day, mood: Option<int>, highlight: Option<string>, createdAt: string): (r: (seq<Entry>, nat))
    ensures DateSet(r.0) == DateSet(rows) + {d}
    ensures |rows| <= |r.0| <= |rows| + 1 && nextId <= r.1 <= nextId + 1
  {
    match FindByDate(rows, d)
    case Some(_) => (UpdateWhereDate(rows, d, mood, highlight, createdAt), nextId)
    case None => (rows + [Entry(nextId, d, mood, highlight, createdAt)], nextId + 1)
  }

  /** The ids handed out once an upsert for `d` has run. */
  ghost function IssuedAfter(rows: seq<Entry>, nextId: nat, issued: set<nat>, d: Day): set<nat> {
    if d in DateSet(rows) then issued else issued + {nextId}
  }

  /** Upsert keeps the schema's guarantees. */
  lemma UpsertKeepsTableValid(rows: seq<Entry>, nextId: nat, issued: set<nat>,
                              d: Day, mood: Option<int>, highlight: Option<string>, createdAt: string)
    requires ValidTable(rows, nextId, issued)
    ensures var r := Upsert(rows, nextId, d, mood, highlight, createdAt);
      ValidTable(r.0, r.1, IssuedAfter(rows, nextId, issued, d))
  {
    var r := Upsert(rows, nextId, d, mood, highlight, createdAt);
    if d in DateSet(rows) {
      forall e | e in r.0 ensures e.id in issued {
        var i :| 0 <= i < |r.0| && r.0[i] == e;
        assert rows[i] in rows;
      }
    } else {
      var added := Entry(nextId, d, mood, highlight, createdAt);
      assert r.0 == rows + [added];
      forall i, j | 0 <= i < j < |r.0| ensures r.0[i].date != r.0[j].date && r.0[i].id != r.0[j].id {
        if j == |rows| {
          assert r.0[i] in rows;
        }
      }
    }
  }

  /**
   * After an upsert for `d` the table holds exactly one row for `d`, and it
   * carries the given mood, highlight and timestamp: a null overwrites,
   * nothing is merged.
   */
  lemma UpsertStoresValues(rows: seq<Entry>, nextId: nat, issued: set<nat>,
                           d: Day, mood: Option<int>, highlight: Option<string>, createdAt: string)
    requires ValidTable(rows, nextId, issued)
    ensures var r := Upsert(rows, nextId, d, mood, highlight, createdAt);
      && UniqueDates(r.0)
      && d in DateSet(r.0)
      && (forall e :: e in r.0 && e.date == d ==> e.mood == mood && e.highlight == highlight && e.createdAt == createdAt)
  {
    UpsertKeepsTableValid(rows, nextId, issued, d, mood, highlight, createdAt);
    var r := Upsert(rows, nextId, d, mood, highlight, createdAt);
    if d in DateSet(rows) {
      var e := FindByDate(rows, d).value;
      var i :| 0 <= i < |rows| && rows[i] == e;
      assert r.0[i] in r.0;
    } else {
      assert r.0[|rows|] in r.0;
      forall e | e in r.0 && e.date == d ensures e.mood == mood && e.highlight == highlight && e.createdAt == createdAt {
        var i :| 0 <= i < |r.0| && r.0[i] == e;
      }
    }
  }

  /**
   * Upsert on a date that has a row keeps the length, the counter, that
   * row's id and date, and every other row.
   */
  lemma UpsertExistingRow(rows: seq<Entry>, nextId: nat, d: Day, mood: Option<int>, highlight: Option<string>, createdAt: string)
    requires d in DateSet(rows)
    ensures var r := Upsert(rows, nextId, d, mood, highlight, createdAt);
      && |r.0| == |rows| && r.1 == nextId
      && (forall i :: 0 <= i < |rows| && rows[i].date != d ==> r.0[i] == rows[i])
      && (forall i :: 0 <= i < |rows| && rows[i].date == d ==>
            r.0[i] == Entry(rows[i].id, d, mood, highlight, createdAt))
  {
  }

  /**
   * Upsert on a new date appends one row whose id is the counter, strictly
   * above every id handed out before, and advances the counter.
   */
  lemma UpsertNewRow(rows: seq<Entry>, nextId: nat, issued: set<nat>,
                     d: Day, mood: Option<int>, highlight: Option<string>, createdAt: string)
    requires ValidTable(rows, nextId, issued) && d !in DateSet(rows)
    ensures var r := Upsert(rows, nextId, d, mood, highlight, createdAt);
      && r.0 == rows + [Entry(nextId, d, mood, highlight, createdAt)]
      && r.1 == nextId + 1
      && (forall id :: id in issued ==> id < r.0[|rows|].id)
  {
  }

  /** A lookup of any other date sees the same result before and after an upsert. */
  lemma UpsertOtherDatesUnchanged(rows: seq<Entry>, nextId: nat, d: Day, other: Day,
                                  mood: Option<int>, highlight: Option<string>, createdAt: string)
    requires other != d
    ensures FindByDate(Upsert(rows, nextId, d, mood, highlight, createdAt).0, other) == FindByDate(rows, other)
    decreases |rows|
  {
    var r := Upsert(rows, nextId, d, mood, highlight, createdAt).0;
    if d in DateSet(rows) {
      UpdateOtherDates(rows, d, other, mood, highlight, createdAt);
    } else {
      AppendOtherDate(rows, Entry(nextId, d, mood, highlight, createdAt), other);
    }
  }

  lemma {:induction false} UpdateOtherDates(rows: seq<Entry>, d: Day, other: Day,
                                            mood: Option<int>, highlight: Option<string>, createdAt: string)
    requires other != d
    ensures FindByDate(UpdateWhereDate(rows, d, mood, highlight, createdAt), other) == FindByDate(rows, other)
  {
    var u := UpdateWhereDate(rows, d, mood, highlight, createdAt);
    if |rows| > 0 {
      UpdateOtherDates(rows[1..], d, other, mood, highlight, createdAt);
      UpdateTail(rows, d, mood, highlight, createdAt);
    }
  }

  lemma UpdateTail(rows: seq<Entry>, d: Day, mood: Option<int>, highlight: Option<string>, createdAt: string)
    requires |rows| > 0
    ensures UpdateWhereDate(rows, d, mood, highlight, createdAt)[1..] == UpdateWhereDate(rows[1..], d, mood, highlight, createdAt)
  {
    var u := UpdateWhereDate(rows, d, mood, highlight, createdAt);
    var t := UpdateWhereDate(rows[1..], d, mood, highlight, createdAt);
    assert |u[1..]| == |t|;
    forall i | 0 <= i < |t| ensures u[1..][i] == t[i] {
      assert rows[1..][i] == rows[i + 1];
    }
  }

  lemma {:induction false} AppendOtherDate(rows: seq<Entry>, x: Entry, other: Day)
    requires x.date != other
    ensures FindByDate(rows + [x], other) == FindByDate(rows, other)
  {
    if |rows| > 0 {
      AppendOtherDate(rows[1..], x, other);
      assert (rows + [x])[1..] == rows[1..] + [x];
    }
  }

  /** Upserting the same values twice leaves the table as upserting them once. */
  lemma UpsertIdempotent(rows: seq<Entry>, nextId: nat, issued: set<nat>,
                         d: Day, mood: Option<int>, highlight: Option<string>, createdAt: string)
    requires ValidTable(rows, nextId, issued)
    ensures var r := Upsert(rows, nextId, d, mood, highlight, createdAt);
      Upsert(r.0, r.1, d, mood, highlight, createdAt) == r
  {
    var r := Upsert(rows, nextId, d, mood, highlight, createdAt);
    UpsertStoresValues(rows, nextId, issued, d, mood, highlight, createdAt);
    var u := UpdateWhereDate(r.0, d, mood, highlight, createdAt);
    forall i | 0 <= i < |r.0| ensures u[i] == r.0[i] {
      assert r.0[i] in r.0;
    }
    assert u == r.0;
  }

  /** The journal table. */
  class Store {
    var rows: seq<Entry>
    var nextId: nat
    ghost var issued: set<nat>

    ghost predicate Valid()
      reads this
    {
      ValidTable(rows, nextId, issued)
    }

    /** `CREATE TABLE entries (...)` (src/db/database.ts:29-38): empty, ids start at 1. */
    constructor ()
      ensures Valid()
      ensures rows == [] && nextId == 1 && issued == {}
    {
      rows := [];
      nextId := 1;
      issued := {};
    }

    /** `getEntryByDate` (src/db/database.ts:50-56): the row for `d`, or null when there is none. */
    function GetEntryByDate(d: Day): (r: Option<Entry>)
      reads this
      requires Valid()
      ensures r.Some? ==> r.value in rows && r.value.date == d
      ensures r.None? <==> d !in DateSet(rows)
      ensures forall e :: e in rows && e.date == d ==> r == Some(e)
    {
      var r := FindByDate(rows, d);
      if r.Some? then
        assert forall e :: e in rows && e.date == d ==> e == r.value by {
          forall e | e in rows && e.date == d ensures e == r.value {
            FindByDateUnique(rows, d, e);
          }
        }
        r
      else r
    }

    /** `upsertEntry` (src/db/database.ts:66-86). */
    method UpsertEntry(d: Day, mood: Option<int>, highlight: Option<string>, createdAt: string)
      requires Valid()
      modifies this
      ensures Valid()
      ensures (rows, nextId) == Upsert(old(rows), old(nextId), d, mood, highlight, createdAt)
      ensures issued == IssuedAfter(old(rows), old(nextId), old(issued), d)
      ensures GetEntryByDate(d).Some?
      ensures GetEntryByDate(d).value.mood == mood && GetEntryByDate(d).value.highlight == highlight
    {
      UpsertKeepsTableValid(rows, nextId, issued, d, mood, highlight, createdAt);
      UpsertStoresValues(rows, nextId, issued, d, mood, highlight, createdAt);
      var existing := GetEntryByDate(d);
      if existing.Some? {
        rows := UpdateWhereDate(rows, d, mood, highlight, createdAt);
      } else {
        rows := rows + [Entry(nextId, d, mood, highlight, createdAt)];
        issued := issued + {nextId};
        nextId := nextId + 1;
      }
    }

    /** `getAllEntries` (src/db/database.ts:97-107): every row, dates strictly descending. */
    function GetAllEntries(): (r: seq<Entry>)
      reads this
      requires Valid()
      ensures StrictlyDescending(r)
      ensures multiset(r) == multiset(rows)
    {
      Reverse(SortByDate(rows))
    }

    /**
     * `getEntriesWithHighlights` (src/db/database.ts:112-122): in the same
     * descending order, exactly the rows whose highlight is neither null nor "".
     */
    function GetEntriesWithHighlights(): (r: seq<Entry>)
      reads this
      requires Valid()
      ensures IsSubsequence(r, GetAllEntries())
      ensures StrictlyDescending(r)
      ensures forall e :: e in r <==> e in rows && HasHighlight(e)
    {
      var all := GetAllEntries();
      PermutationSameDays(all, rows);
      var r := Filter(all, HasHighlight);
      SubsequenceDescending(r, all);
      r
    }

    /** `deleteAllEntries` (src/db/database.ts:216-224): no rows; the id counter is kept. */
    method DeleteAllEntries()
      requires Valid()
      modifies this
      ensures Valid()
      ensures rows == [] && nextId == old(nextId) && issued == old(issued)
    {
      rows := [];
    }

    /**
     * `getStreakStats` (src/db/database.ts:127-200) for the given local day
     * and cutoffs, which the source takes from the clock. The current streak
     * is counted back from the local day; the source's UTC start day east of
     * UTC is `Streaks.EastOfUtcMissesToday`.
     */
    method GetStreakStats(today: Day, weekCutoff: Day, monthCutoff: Day) returns (stats: StreakStats)
      requires Valid()
      ensures IsStreakStats(DateSet(rows), today, weekCutoff, monthCutoff, stats)
      ensures rows == [] ==> stats == StreakStats(0, 0, 0, 0, 0)
    {
      var entries := GetAllEntries();
      PermutationSameDays(entries, rows);
      if |entries| == 0 {
        stats := StreakStats(0, 0, 0, 0, 0);
        assert DateSet(entries) == {};
        EmptyTableStats(today, weekCutoff, monthCutoff);
        return;
      }
      var sorted := SortByDate(entries);
      PermutationSameDays(sorted, entries);
      var currentStreak := CurrentStreak(sorted, today);
      var longestStreak := LongestStreak(sorted);
      var thisWeekCount := CountSince(entries, weekCutoff);
      var thisMonthCount := CountSince(entries, monthCutoff);
      CountSinceIsDays(entries, weekCutoff);
      CountSinceIsDays(entries, monthCutoff);
      DistinctDaysCount(entries);
      stats := StreakStats(currentStreak, longestStreak, |entries|, thisWeekCount, thisMonthCount);
    }
  }

  /** The early return for an empty table meets the specification. */
  lemma EmptyTableStats(today: Day, week: Day, month: Day)
    ensures IsStreakStats({}, today, week, month, StreakStats(0, 0, 0, 0, 0))
  {
    assert RunAt({}, today, 0);
    forall d, k: nat | RunAt({}, d, k) ensures k <= 0 {
      RunFits({}, d, k);
    }
    assert DaysSince({}, week) == {};
    assert DaysSince({}, month) == {};
  }
}
