/**
 * The row of the `entries` table (src/db/database.ts) and the orders on rows
 * the store and the statistics rely on.
 *
 * A row's `date` is the calendar day number of its `YYYY-MM-DD` key
 * (module Dates): for four-digit years equal keys are equal day numbers and
 * string order of keys is day-number order, so ordering and comparing by day
 * number is what `ORDER BY date` and the string comparisons do.
 */
module Entries {
  import opened Wrappers
  import opened Seqs

  /** A calendar day number. */
  type Day = int

  /** One row: `id`, the unique `date`, nullable `mood` and `highlight`, `created_at`. */
  datatype Entry = Entry(id: nat, date: Day, mood: Option<int>, highlight: Option<string>, createdAt: string)

  /** The derived statistics `getStreakStats` returns. */
  datatype StreakStats = StreakStats(
    currentStreak: nat,
    longestStreak: nat,
    totalEntries: nat,
    thisWeekCount: nat,
    thisMonthCount: nat)

  /** The days that have an entry. */
  ghost function DateSet(rows: seq<Entry>): set<Day> {
    set e | e in rows :: e.date
  }

  /** The `UNIQUE` constraint on `date`. */
  ghost predicate UniqueDates(rows: seq<Entry>) {
    forall i, j :: 0 <= i < j < |rows| ==> rows[i].date != rows[j].date
  }

  ghost predicate StrictlyAscending(rows: seq<Entry>) {
    forall i, j :: 0 <= i < j < |rows| ==> rows[i].date < rows[j].date
  }

  ghost predicate StrictlyDescending(rows: seq<Entry>) {
    forall i, j :: 0 <= i < j < |rows| ==> rows[i].date > rows[j].date
  }

  /** `highlight IS NOT NULL AND highlight != ""`. */
  predicate HasHighlight(e: Entry) {
    e.highlight.Some? && e.highlight.value != ""
  }

  /** Inserts one row into a list sorted ascending by date. */
  function InsertByDate(x: Entry, s: seq<Entry>): (r: seq<Entry>)
    requires StrictlyAscending(s)
    requires forall e :: e in s ==> e.date != x.date
    ensures StrictlyAscending(r)
    ensures forall e :: e in r <==> e == x || e in s
  {
    if |s| == 0 then [x]
    else if x.date < s[0].date then [x] + s
    else
      AscendingTail(s);
      var tail := InsertByDate(x, s[1..]);
      assert s == [s[0]] + s[1..];
      assert forall e :: e in tail ==> s[0].date < e.date;
      [s[0]] + tail
  }

  /** Insertion adds exactly the one row. */
  lemma {:induction false} InsertAddsOne(x: Entry, s: seq<Entry>)
    requires StrictlyAscending(s)
    requires forall e :: e in s ==> e.date != x.date
    ensures multiset(InsertByDate(x, s)) == multiset(s) + multiset{x}
  {
    if |s| > 0 && x.date >= s[0].date {
      AscendingTail(s);
      var tail := InsertByDate(x, s[1..]);
      InsertAddsOne(x, s[1..]);
      assert InsertByDate(x, s) == [s[0]] + tail;
      assert s == [s[0]] + s[1..];
      assert multiset(s) == multiset{s[0]} + multiset(s[1..]);
      assert multiset([s[0]] + tail) == multiset{s[0]} + multiset(tail);
    }
  }

  lemma AscendingTail(s: seq<Entry>)
    requires StrictlyAscending(s) && |s| > 0
    ensures StrictlyAscending(s[1..])
    ensures forall e :: e in s[1..] ==> s[0].date < e.date
  {
    forall e | e in s[1..] ensures s[0].date < e.date {
      var k :| 0 <= k < |s[1..]| && s[1..][k] == e;
      assert e == s[k + 1];
    }
  }

  /**
   * Sorting rows ascending by date, as `[...entries].sort((a, b) =>
   * a.date.localeCompare(b.date))` does: a permutation in strictly ascending order.
   */
  function SortByDate(s: seq<Entry>): (r: seq<Entry>)
    requires UniqueDates(s)
    ensures StrictlyAscending(r)
    ensures forall e :: e in r <==> e in s
    ensures multiset(r) == multiset(s)
  {
    if |s| == 0 then []
    else
      assert s == [s[0]] + s[1..];
      InsertAddsOne(s[0], SortByDate(s[1..]));
      InsertByDate(s[0], SortByDate(s[1..]))
  }

  /** The rows in reverse order. */
  function Reverse(s: seq<Entry>): (r: seq<Entry>)
    ensures |r| == |s|
    ensures forall i :: 0 <= i < |s| ==> r[i] == s[|s| - 1 - i]
    ensures multiset(r) == multiset(s)
  {
    if |s| == 0 then []
    else
      assert s == [s[0]] + s[1..];
      Reverse(s[1..]) + [s[0]]
  }

  /** Rows that are a permutation of each other have the same days. */
  lemma PermutationSameDays(r: seq<Entry>, s: seq<Entry>)
    requires multiset(r) == multiset(s)
    ensures DateSet(r) == DateSet(s)
    ensures forall e :: e in r <==> e in s
  {
    assert forall e :: e in r <==> e in multiset(r);
    assert forall e :: e in s <==> e in multiset(s);
  }

  /** With unique dates there are as many days as rows. */
  lemma {:induction false} DistinctDaysCount(rows: seq<Entry>)
    requires UniqueDates(rows)
    ensures |DateSet(rows)| == |rows|
  {
    if |rows| > 0 {
      var tail := rows[1..];
      DistinctDaysCount(tail);
      assert DateSet(rows) == {rows[0].date} + DateSet(tail) by {
        assert rows == [rows[0]] + tail;
      }
      assert rows[0].date !in DateSet(tail);
    }
  }

  /** Deleting rows from a list sorted descending by date keeps it sorted. */
  lemma {:induction false} SubsequenceDescending(r: seq<Entry>, s: seq<Entry>)
    requires IsSubsequence(r, s) && StrictlyDescending(s)
    ensures StrictlyDescending(r)
    decreases |s|
  {
    if |r| > 0 {
      assert StrictlyDescending(s[1..]) by {
        forall i, j | 0 <= i < j < |s| - 1 ensures s[1..][i].date > s[1..][j].date {
          assert s[1..][i] == s[i + 1] && s[1..][j] == s[j + 1];
        }
      }
      if r[0] == s[0] && IsSubsequence(r[1..], s[1..]) {
        SubsequenceDescending(r[1..], s[1..]);
        SubsequenceMembers(r[1..], s[1..]);
        forall j | 0 < j < |r| ensures r[0].date > r[j].date {
          assert r[j] == r[1..][j - 1];
          assert r[j] in s[1..];
          var k :| 0 <= k < |s| - 1 && s[1..][k] == r[j];
          assert s[k + 1] == r[j];
        }
      } else {
        SubsequenceDescending(r, s[1..]);
      }
    }
  }
}
