/**
 * The statistics `getStreakStats` derives (src/db/database.ts:127-211),
 * specified on the set of days that have an entry, and the two loops that
 * compute the current and the longest streak.
 *
 * Day arithmetic is on calendar day numbers: stepping `checkDate` back with
 * `setDate(getDate() - 1)` is subtracting one, and the rounded millisecond
 * difference of two local midnights is the difference of their day numbers.
 */
module Streaks {
  import opened Entries
  import opened Seqs

  /** Each of the `len` days `start, start + 1, ...` has an entry. */
  ghost predicate RunAt(S: set<Day>, start: Day, len: nat) {
    forall d :: start <= d < start + len ==> d in S
  }

  /**
   * `c` is the current streak counted back from `today`: the days
   * `today, today - 1, ..., today - c + 1` each have an entry and
   * `today - c` has none.
   */
  ghost predicate IsCurrentStreak(S: set<Day>, today: Day, c: nat) {
    RunAt(S, today - c + 1, c) && today - c !in S
  }

  /** `L` is the length of a longest run of consecutive days with an entry. */
  ghost predicate IsLongestStreak(S: set<Day>, L: nat) {
    (exists d :: RunAt(S, d, L)) && forall d, k: nat :: RunAt(S, d, k) ==> k <= L
  }

  /** The days on or after `cutoff`. */
  ghost function DaysSince(S: set<Day>, cutoff: Day): set<Day> {
    set d | d in S && d >= cutoff
  }

  /** What the returned statistics mean, for the given today and cutoffs. */
  ghost predicate IsStreakStats(S: set<Day>, today: Day, weekCutoff: Day, monthCutoff: Day, s: StreakStats) {
    && IsCurrentStreak(S, today, s.currentStreak)
    && IsLongestStreak(S, s.longestStreak)
    && s.totalEntries == |S|
    && s.thisWeekCount == |DaysSince(S, weekCutoff)|
    && s.thisMonthCount == |DaysSince(S, monthCutoff)|
  }

  /** `entries.filter(e => e.date >= cutoff).length`. */
  function CountSince(entries: seq<Entry>, cutoff: Day): (n: nat)
    ensures n <= |entries|
  {
    |Filter(entries, (e: Entry) => e.date >= cutoff)|
  }

  /** On rows with distinct dates the count is the number of days on or after the cutoff. */
  lemma CountSinceIsDays(entries: seq<Entry>, cutoff: Day)
    requires StrictlyDescending(entries)
    ensures CountSince(entries, cutoff) == |DaysSince(DateSet(entries), cutoff)|
  {
    var kept := Filter(entries, (e: Entry) => e.date >= cutoff);
    SubsequenceDescending(kept, entries);
    DistinctDaysCount(kept);
    assert DateSet(kept) == DaysSince(DateSet(entries), cutoff);
  }

  // ----- segments of a sorted list and runs of days -----

  /** Each row of `s[a..b]` is dated the day after its predecessor. */
  ghost predicate Consecutive(s: seq<Entry>, a: int, b: int) {
    0 <= a <= b <= |s| && forall k :: a <= k < b - 1 ==> s[k + 1].date == s[k].date + 1
  }

  lemma {:induction false} SegmentOffset(s: seq<Entry>, a: int, b: int, j: nat)
    requires Consecutive(s, a, b) && a + j < b
    ensures s[a + j].date == s[a].date + j
  {
    if j > 0 {
      SegmentOffset(s, a, b, j - 1);
      assert s[a + j].date == s[a + j - 1].date + 1;
    }
  }

  /** A consecutive segment is a run of days. */
  lemma SegmentIsRun(s: seq<Entry>, a: int, b: int)
    requires Consecutive(s, a, b) && a < b
    ensures RunAt(DateSet(s), s[a].date, b - a)
  {
    forall x | s[a].date <= x < s[a].date + (b - a) ensures x in DateSet(s) {
      var j := x - s[a].date;
      SegmentOffset(s, a, b, j);
      assert s[a + j] in s;
    }
  }

  lemma {:induction false} RunOffset(s: seq<Entry>, d: Day, k: nat, a: int, t: nat)
    requires StrictlyAscending(s) && RunAt(DateSet(s), d, k)
    requires 0 <= a < |s| && s[a].date == d && t < k
    ensures a + t < |s| && s[a + t].date == d + t
  {
    if t > 0 {
      RunOffset(s, d, k, a, t - 1);
      assert d + t in DateSet(s);
      var e :| e in s && e.date == d + t;
      var c :| 0 <= c < |s| && s[c] == e;
      assert c > a + t - 1;
      assert s[a + t].date <= s[c].date;
    }
  }

  /** In an ascending list every run of days is a consecutive segment. */
  lemma RunIsSegment(s: seq<Entry>, d: Day, k: nat) returns (a: int)
    requires StrictlyAscending(s) && RunAt(DateSet(s), d, k) && k > 0
    ensures Consecutive(s, a, a + k) && s[a].date == d
  {
    assert d in DateSet(s);
    var e :| e in s && e.date == d;
    a :| 0 <= a < |s| && s[a] == e;
    RunOffset(s, d, k, a, k - 1);
    forall m | a <= m < a + k - 1 ensures s[m + 1].date == s[m].date + 1 {
      RunOffset(s, d, k, a, m - a);
      RunOffset(s, d, k, a, m + 1 - a);
    }
  }

  // ----- sizes -----

  lemma SubsetSize(A: set<Day>, B: set<Day>)
    requires A <= B
    ensures |A| <= |B|
  {
    assert B == A + (B - A);
  }

  /** A run is never longer than the number of days with an entry. */
  lemma {:induction false} RunFits(S: set<Day>, d: Day, k: nat)
    requires RunAt(S, d, k)
    ensures k <= |S|
  {
    if k > 0 {
      var last := d + k - 1;
      assert last in S;
      RunFits(S - {last}, d, k - 1);
      assert S == (S - {last}) + {last};
    }
  }

  // ----- properties of the specification -----

  lemma RunGrowsDown(S: set<Day>, start: Day, len: nat)
    requires RunAt(S, start, len) && start - 1 in S
    ensures RunAt(S, start - 1, len + 1)
  {
    forall x | start - 1 <= x < start + len ensures x in S {
    }
  }

  /** The current streak is determined by the days and today. */
  lemma CurrentStreakUnique(S: set<Day>, today: Day, c1: nat, c2: nat)
    requires IsCurrentStreak(S, today, c1) && IsCurrentStreak(S, today, c2)
    ensures c1 == c2
  {
  }

  /** The current streak is zero exactly when today has no entry. */
  lemma CurrentStreakZeroIffNoEntryToday(S: set<Day>, today: Day, c: nat)
    requires IsCurrentStreak(S, today, c)
    ensures c == 0 <==> today !in S
  {
    if c > 0 {
      assert today in S;
    }
  }

  /** The days before today that have no bearing on the streak. */
  ghost function UpTo(S: set<Day>, today: Day): set<Day> {
    set d | d in S && d <= today
  }

  /** Entries dated after today do not change the current streak. */
  lemma FutureEntriesIgnored(S: set<Day>, today: Day, c: nat)
    ensures IsCurrentStreak(S, today, c) <==> IsCurrentStreak(UpTo(S, today), today, c)
  {
    if IsCurrentStreak(S, today, c) {
      forall x | today - c + 1 <= x < today + 1 ensures x in UpTo(S, today) {
        assert x in S;
      }
    }
    if IsCurrentStreak(UpTo(S, today), today, c) {
      forall x | today - c + 1 <= x < today + 1 ensures x in S {
        assert x in UpTo(S, today);
      }
      assert today - c !in S by {
        assert today - c <= today && today - c !in UpTo(S, today);
      }
    }
  }

  /** The longest streak is determined by the days. */
  lemma LongestStreakUnique(S: set<Day>, L1: nat, L2: nat)
    requires IsLongestStreak(S, L1) && IsLongestStreak(S, L2)
    ensures L1 == L2
  {
    var d1 :| RunAt(S, d1, L1);
    var d2 :| RunAt(S, d2, L2);
  }

  /** Statistics meeting the specification are unique. */
  lemma StatsUnique(S: set<Day>, today: Day, week: Day, month: Day, s1: StreakStats, s2: StreakStats)
    requires IsStreakStats(S, today, week, month, s1) && IsStreakStats(S, today, week, month, s2)
    ensures s1 == s2
  {
    CurrentStreakUnique(S, today, s1.currentStreak, s2.currentStreak);
    LongestStreakUnique(S, s1.longestStreak, s2.longestStreak);
  }

  /**
   * For a non-empty table: 1 <= longest <= total, current <= longest, and
   * the rolling counts never exceed the total.
   */
  lemma StatsBounds(S: set<Day>, today: Day, week: Day, month: Day, s: StreakStats)
    requires IsStreakStats(S, today, week, month, s) && S != {}
    ensures 1 <= s.longestStreak <= s.totalEntries
    ensures s.currentStreak <= s.longestStreak
    ensures s.thisWeekCount <= s.totalEntries && s.thisMonthCount <= s.totalEntries
  {
    var x :| x in S;
    assert RunAt(S, x, 1);
    var d :| RunAt(S, d, s.longestStreak);
    RunFits(S, d, s.longestStreak);
    SubsetSize(DaysSince(S, week), S);
    SubsetSize(DaysSince(S, month), S);
  }

  /** With no entries every statistic is zero. */
  lemma EmptyStatsAreZero(today: Day, week: Day, month: Day, s: StreakStats)
    requires IsStreakStats({}, today, week, month, s)
    ensures s == StreakStats(0, 0, 0, 0, 0)
  {
    var d :| RunAt({}, d, s.longestStreak);
    RunFits({}, d, s.longestStreak);
    assert DaysSince({}, week) == {};
    assert DaysSince({}, month) == {};
  }

  /** Today and yesterday, then a gap, then an older entry: the streak is 2. */
  lemma GapBreaksStreak(today: Day, older: Day)
    requires older < today - 2
    ensures IsCurrentStreak({today, today - 1, older}, today, 2)
  {
  }

  /** Entries for yesterday and before but none for today: the streak is 0. */
  lemma NoEntryTodayScenario(S: set<Day>, today: Day)
    requires today - 1 in S && today !in S
    ensures IsCurrentStreak(S, today, 0)
  {
  }

  /** Entries on days 1, 2, 3 and 10: the longest streak is 3. */
  lemma LongestOfOneTwoThreeTen()
    ensures IsLongestStreak({1, 2, 3, 10}, 3)
  {
    var S: set<Day> := {1, 2, 3, 10};
    assert RunAt(S, 1, 3);
    forall d, k: nat | RunAt(S, d, k) ensures k <= 3 {
      assert k > 3 ==> d in S && d + 1 in S && d + 2 in S && d + 3 in S;

    }
  }

  /** Two consecutive days ending today: current and longest streak are both 2. */
  lemma TwoDayScenario(d: Day)
    ensures IsCurrentStreak({d, d + 1}, d + 1, 2)
    ensures IsLongestStreak({d, d + 1}, 2)
  {
    var S: set<Day> := {d, d + 1};
    assert RunAt(S, d, 2);
    forall x, k: nat | RunAt(S, x, k) ensures k <= 2 {
      assert k > 2 ==> x in S && x + 1 in S && x + 2 in S;

    }
  }

  /**
   * The calendar day that `toISOString().split('T')[0]` names for local
   * midnight of `localDay` in a zone `utcOffsetMinutes` ahead of UTC: east of
   * UTC that instant still falls on the previous UTC day, west of it (down to
   * -12 h) on the same day.
   */
  function IsoDayOfLocalMidnight(localDay: Day, utcOffsetMinutes: int): Day {
    if utcOffsetMinutes > 0 then localDay - 1 else localDay
  }

  /**
   * As written, east of UTC the first loop counts back from yesterday's key:
   * with an entry for today only, it reports a current streak of 0, while the
   * streak of the local day is 1. At zero or negative offsets the two agree.
   */
  lemma EastOfUtcMissesToday(today: Day, utcOffsetMinutes: int)
    requires 0 < utcOffsetMinutes <= 14 * 60
    ensures IsCurrentStreak({today}, IsoDayOfLocalMidnight(today, utcOffsetMinutes), 0)
    ensures !IsCurrentStreak({today}, IsoDayOfLocalMidnight(today, utcOffsetMinutes), 1)
    ensures IsCurrentStreak({today}, today, 1)
  {
    assert RunAt({today}, today, 1);
  }

  // ----- the two loops of getStreakStats -----

  /**
   * The first loop (src/db/database.ts:147-162): walks the ascending list from
   * its newest row, counting a row that matches the expected day and moving
   * the expected day back, skipping rows after it, and stopping at the first
   * row before it.
   *
   * `today` is the local day the streak is counted back from. The source
   * forms the expected day with `toISOString()` of a local midnight, which
   * is `IsoDayOfLocalMidnight(today, offset)`: the local day only where the
   * UTC offset is zero or negative (see `EastOfUtcMissesToday`).
   */
  method CurrentStreak(sorted: seq<Entry>, today: Day) returns (current: nat)
    requires StrictlyAscending(sorted)
    ensures IsCurrentStreak(DateSet(sorted), today, current)
  {
    current := 0;
    var expected := today;
    var i := |sorted| - 1;
    while i >= 0
      invariant -1 <= i < |sorted|
      invariant expected == today - current
      invariant RunAt(DateSet(sorted), expected + 1, current)
      invariant forall k :: i < k < |sorted| ==> sorted[k].date > expected
    {
      var entryDate := sorted[i].date;
      if entryDate == expected {
        assert sorted[i] in sorted;
        RunGrowsDown(DateSet(sorted), expected + 1, current);
        current := current + 1;
        expected := expected - 1;
      } else if entryDate < expected {
        break;
      }
      i := i - 1;
    }
    NotInAscending(sorted, expected, i);
  }

  lemma NotInAscending(s: seq<Entry>, x: Day, i: int)
    requires StrictlyAscending(s) && -1 <= i < |s|
    requires forall k :: i < k < |s| ==> s[k].date > x
    requires i < 0 || s[i].date < x
    ensures x !in DateSet(s)
  {
    forall e | e in s ensures e.date != x {
      var k :| 0 <= k < |s| && s[k] == e;
      if k <= i {
        assert s[k].date <= s[i].date;
      }
    }
  }

  /** A consecutive segment ending at `i` is no longer than the running counter. */
  ghost predicate RunningBound(s: seq<Entry>, i: int, temp: int) {
    forall a :: 0 <= a <= i && Consecutive(s, a, i) ==> i - a <= temp
  }

  /** Every consecutive segment ending at or before `i` is at most `m` long. */
  ghost predicate SegmentsBound(s: seq<Entry>, i: int, m: int) {
    forall a, b :: 0 <= a <= b <= i && Consecutive(s, a, b) ==> b - a <= m
  }

  /**
   * The second loop (src/db/database.ts:165-180): a pass over the ascending
   * list that extends the running counter when a row is dated the day after
   * its predecessor, and otherwise folds it into the maximum and restarts it
   * at 1; the final run is folded in after the loop.
   */
  method LongestStreak(sorted: seq<Entry>) returns (longest: nat)
    requires StrictlyAscending(sorted) && |sorted| > 0
    ensures IsLongestStreak(DateSet(sorted), longest)
  {
    longest := 0;
    ghost var best := 0;
    var temp: nat := 1;
    var i := 1;
    while i < |sorted|
      invariant 1 <= i <= |sorted|
      invariant 1 <= temp <= i && longest <= i
      invariant Consecutive(sorted, i - temp, i)
      invariant longest == 0 || Consecutive(sorted, best, best + longest)
      invariant RunningBound(sorted, i, temp)
      invariant SegmentsBound(sorted, i, if longest >= temp then longest else temp)
    {
      var diffDays := sorted[i].date - sorted[i - 1].date;
      if diffDays == 1 {
        LongerRun(sorted, i, temp, longest);
        temp := temp + 1;
      } else {
        RestartRun(sorted, i, temp, longest);
        if longest < temp {
          best := i - temp;
        }
        longest := if longest >= temp then longest else temp;
        temp := 1;
      }
      i := i + 1;
    }
    if longest < temp {
      best := i - temp;
    }
    longest := if longest >= temp then longest else temp;
    LongestFromSegments(sorted, longest, best);
  }

  lemma LongerRun(s: seq<Entry>, i: int, temp: nat, longest: nat)
    requires 1 <= i < |s| && 1 <= temp <= i
    requires s[i].date == s[i - 1].date + 1
    requires Consecutive(s, i - temp, i)
    requires RunningBound(s, i, temp)
    requires SegmentsBound(s, i, if longest >= temp then longest else temp)
    ensures Consecutive(s, i - temp, i + 1)
    ensures RunningBound(s, i + 1, temp + 1)
    ensures SegmentsBound(s, i + 1, if longest >= temp + 1 then longest else temp + 1)
  {
    var j := i + 1;
    forall a | 0 <= a <= j && Consecutive(s, a, j) ensures j - a <= temp + 1 {
      if a <= i {
        assert Consecutive(s, a, i);
      }
    }
    forall a, b | 0 <= a <= b <= i + 1 && Consecutive(s, a, b)
      ensures b - a <= if longest >= temp + 1 then longest else temp + 1
    {
      if b == i + 1 && a <= i {
        assert Consecutive(s, a, i);
      }
    }
  }

  lemma RestartRun(s: seq<Entry>, i: int, temp: nat, longest: nat)
    requires 1 <= i < |s| && 1 <= temp <= i
    requires s[i].date != s[i - 1].date + 1
    requires SegmentsBound(s, i, if longest >= temp then longest else temp)
    ensures Consecutive(s, i, i + 1)
    ensures RunningBound(s, i + 1, 1)
    ensures SegmentsBound(s, i + 1, if longest >= temp then longest else temp)
  {
    var j := i + 1;
    forall a | 0 <= a <= j && Consecutive(s, a, j) ensures j - a <= 1 {
    }
    forall a, b | 0 <= a <= b <= i + 1 && Consecutive(s, a, b)
      ensures b - a <= if longest >= temp then longest else temp
    {
    }
  }

  lemma LongestFromSegments(s: seq<Entry>, longest: nat, a: int)
    requires StrictlyAscending(s) && longest >= 1
    requires SegmentsBound(s, |s|, longest)
    requires Consecutive(s, a, a + longest)
    ensures IsLongestStreak(DateSet(s), longest)
  {
    SegmentIsRun(s, a, a + longest);
    forall d, k: nat | RunAt(DateSet(s), d, k) ensures k <= longest {
      if k > 0 {
        var b := RunIsSegment(s, d, k);
      }
    }
  }
}
