# Small Wins journal — a verified model

Small Wins is a React Native journal. Each day the user picks a mood and
writes one highlight. The app keeps one row per calendar day in an SQLite
`entries` table. From that table it derives streak statistics. It also shows
the highlights as a shuffled deck of notes, as searchable lists and as a
mood calendar. This project models the app's core in Dafny and proves what
that core promises:

- the journal store of `src/db/database.ts`: the upsert keyed by date, the
  ordered reads, the reset, and `getStreakStats` with its two streak loops,
  specified on the set of days that have an entry;
- `getTodayLocalDate` (`src/db/dateUtils.ts`) and the `YYYY-MM-DD` keys. For
  four-digit years, string order of keys is proved to be chronological
  order, and a key is proved to name exactly one date. The rest of the model
  therefore keys rows by calendar day number;
- the mood table and `getMoodById` with its default (`src/constants/moods.ts`);
- the highlight search shared by the Past Wins, Wins and Wins List screens;
- the Past Wins deck:
  - the Fisher–Yates shuffle, on an array, in place;
  - the bounded cursor moved by the tap zones;
  - `visibleCount` and the note stack;
- the mood calendar fold of `MoodScreen`;
- the reflection check-in save;
- the time picker helpers, display format and scroll clamp;
- the settings screen's `formatTime` and its preset time options.

The modules follow the source files:

| module | file | models |
|---|---|---|
| `Wrappers` | `wrappers.dfy` | `Option` |
| `JsText` | `jstext.dfy` | JavaScript string behaviour: `toString`, `padStart`, `trim`, `toLowerCase`, `includes`, `<` on strings, `%` |
| `Dates` | `dates.dfy` | calendar dates, `getTodayLocalDate`, keys |
| `Seqs` | `seqs.dfy` | `filter` and subsequences |
| `Entries` | `entries.dfy` | the row, `ORDER BY date`, the orders the store relies on |
| `Streaks` | `streaks.dfy` | the streak specification and the two loops |
| `EntryStore` | `entry_store.dfy` | the `entries` table as a class |
| `Moods` | `moods.dfy` | `MOODS`, `getMoodById` |
| `HighlightSearch` | `highlight_search.dfy` | the search shared by three screens |
| `PastWins` | `past_wins_screen.dfy` | the deck |
| `Wins`, `WinsList` | `wins_screen.dfy`, `wins_list_screen.dfy` | the two list screens |
| `MoodCalendar` | `mood_screen.dfy` | `loadMoodData` |
| `ReflectionCheckIn` | `reflection_check_in.dfy` | `handleSave` |
| `TimePicker` | `time_picker.dfy` | the picker's helpers and state |
| `Settings` | `settings_screen.dfy` | `formatTime`, `TimeOption` |

Design choices:

- The screens' React state is a `class` whose fields the handlers reassign.
- Loops stay loops:
  - the shuffle;
  - both streak loops;
  - the note stack;
  - the mood fold.

  Each one is proved against a specification function or predicate.
- What comes from outside the program is a parameter:
  - the clock, with today and the two cutoffs as parameters;
  - `Math.random`, as the sequence of drawn indices;
  - the scroll offset, as the rounded item index;
  - the outcome of a database write.

## Model

| member | source | states |
|---|---|---|
| `JsText.NatToString` | src/components/TimePicker.tsx:32 | `toString` of a non-negative number is a non-empty digit string whose decimal value is the number, with no leading zero except for 0 itself |
| `JsText.NatToStringInjective` | src/components/TimePicker.tsx:32 | different numbers print differently |
| `JsText.IntToString` | src/db/dateUtils.ts:10 | `String(n)` of a negative number is '-' followed by the digits of its magnitude; of any other number, its digits |
| `JsText.JsRemainder` | src/screens/SettingsScreen.tsx:83 | JavaScript `%` with a positive divisor: agrees with the mathematical remainder for non-negative operands, and lies in (-b, 0] for negative ones |
| `JsText.JsRemainderOdd` | src/screens/SettingsScreen.tsx:83 | `%` truncates toward zero: negating the dividend negates the remainder |
| `JsText.PadStart` | src/db/dateUtils.ts:8-9 | `padStart`: the result has the target width, or the input's length if that is longer; padding fills the front and the input ends it unchanged |
| `JsText.PadTwoDigits` | src/components/TimePicker.tsx:35-37 | numbers below 100 pad to exactly two digits that read back as the number |
| `JsText.TrimStart` | src/screens/WinsScreen.tsx:35 | drops exactly the leading whitespace: the result is a suffix of the input and starts with a non-whitespace character unless empty |
| `JsText.TrimEnd` | src/screens/WinsScreen.tsx:35 | drops exactly the trailing whitespace: the result is a prefix of the input |
| `JsText.Trim` | src/screens/WinsScreen.tsx:35 | the result is no longer than the input and neither begins nor ends with whitespace |
| `JsText.TrimEmptyIffBlank` | src/screens/WinsScreen.tsx:35 | `query.trim() === ''` exactly when every character is whitespace |
| `JsText.TrimStartAppendSpace` | src/screens/WinsScreen.tsx:35 | trailing whitespace survives the leading trim unless the string is blank |
| `JsText.TrimIgnoresPadding` | src/screens/ReflectionCheckInScreen.tsx:43 | whitespace added at both ends does not change the trimmed text |
| `JsText.TrimIdempotent` | src/screens/ReflectionCheckInScreen.tsx:43 | trimming twice is trimming once |
| `JsText.LowerChar` | src/screens/WinsScreen.tsx:39 | maps each capital letter to its own lower-case letter, 32 code points on, and leaves every other character alone |
| `JsText.LowerAlike` | src/screens/WinsListScreen.tsx:44 | two characters lower to the same character exactly when they are equal or the same ASCII letter in the other case |
| `JsText.ToLower` | src/screens/WinsScreen.tsx:39 | same length, lowered character by character |
| `JsText.Includes` | src/screens/WinsScreen.tsx:39 | `includes` holds exactly when the needle occurs at some index |
| `JsText.LexLess` | src/db/database.ts:158 | `<` on strings: code-point lexicographic order, a proper prefix first |
| `JsText.LexAppend` | src/db/database.ts:158 | string order of equal-length prefixes followed by tails is decided by the prefixes, or by the tails when the prefixes are equal |
| `JsText.DigitsOrder` | src/db/database.ts:158 | for digit strings of equal length, string order is numeric order and string equality is numeric equality |
| `Dates.DaysInMonth` | src/db/database.ts:157 | every month has 28 to 31 days |
| `Dates.MonthsFillYear` | src/db/database.ts:157 | the twelve months add up to the length of the year |
| `Dates.BeforeHasSmallerDayNumber` | src/db/database.ts:169-171 | an earlier calendar date has a smaller day number |
| `Dates.DayNumberOrder` | src/db/database.ts:169-171 | chronological order is day-number order and equal dates have equal day numbers, both directions |
| `Dates.PrevDay` | src/db/database.ts:157 | the calendar day before a date, stepping back across month and year ends; its day number is `Dates.PrevDayStep` |
| `Dates.PrevDayStep` | src/db/database.ts:157 | `setDate(getDate() - 1)` steps to a valid date exactly one day number earlier, across month and year ends |
| `Dates.GetTodayLocalDate` | src/db/dateUtils.ts:5-11 | the key of the clock's local date, `getMonth() + 1` as the month; its shape and round trip are `Dates.TodayKeyReadsBack` |
| `Dates.TodayKeyReadsBack` | src/db/dateUtils.ts:5-11 | for a four-digit year the key is 10 characters long with '-' at indices 4 and 7, and it parses back to the clock's year, month (`getMonth() + 1`) and day |
| `Dates.DateKey` | src/db/dateUtils.ts:7-10 | year, '-', two-digit month, '-', two-digit day; its parts, inverse and order are the `Dates.Key*` lemmas |
| `Dates.KeyParts` | src/db/dateUtils.ts:7-10 | the key is a 4-digit year, a 2-digit month and a 2-digit day, each reading back as its value |
| `Dates.KeyRoundTrip` | src/db/dateUtils.ts:5-11 | parsing a date's key gives the date back |
| `Dates.KeyInjective` | src/db/database.ts:32 | two dates have the same key exactly when they are the same date, so `UNIQUE` keys are unique days |
| `Dates.KeyOrderIsChronological` | src/db/database.ts:100 | code-point string order of keys, the order of `ORDER BY date` and of `<`, is chronological order, both directions |
| `Dates.KeyOrderIsDayOrder` | src/db/database.ts:142-144 | string order of keys is day-number order and key equality is day-number equality |
| `Seqs.Filter` | src/screens/WinsScreen.tsx:38-40 | `filter` keeps exactly the elements satisfying the predicate, as a subsequence in their order |
| `Seqs.FilterKeepsCopies` | src/screens/WinsScreen.tsx:38-40 | every copy of a passing element is kept and no copy of a failing one |
| `Seqs.FilterSnoc` | src/screens/MoodScreen.tsx:18-36 | filtering a list with one more element at the end adds that element when it passes |
| `Seqs.FilterAgrees` | src/screens/WinsScreen.tsx:38-40 | predicates that agree on the list filter it alike |
| `Seqs.SubsequenceMembers` | src/screens/WinsScreen.tsx:38-40 | every element of a subsequence is in the list |
| `Seqs.SubsequenceLength` | src/screens/WinsListScreen.tsx:97-99 | a subsequence is never longer than the list |
| `Entries.HasHighlight` | src/db/database.ts:115 | `highlight IS NOT NULL AND highlight != ""`; `EntryStore.Store.GetEntriesWithHighlights` states the query |
| `Entries.InsertByDate` | src/db/database.ts:142-144 | inserting a row with a fresh date into a strictly ascending list keeps it strictly ascending, with exactly the new row added |
| `Entries.InsertAddsOne` | src/db/database.ts:142-144 | the insertion adds one copy of the row and nothing else |
| `Entries.SortByDate` | src/db/database.ts:142-144 | the ascending sort of rows with unique dates is strictly ascending and a permutation of its input |
| `Entries.Reverse` | src/db/database.ts:100 | reversal is a permutation that reads the list back to front |
| `Entries.PermutationSameDays` | src/db/database.ts:142 | a permutation of the rows has the same days and the same rows |
| `Entries.DistinctDaysCount` | src/db/database.ts:197 | with unique dates, the number of rows is the number of days with an entry |
| `Entries.SubsequenceDescending` | src/db/database.ts:115 | any subsequence of a strictly descending list is strictly descending |
| `Streaks.CountSince` | src/db/database.ts:186 | `entries.filter(e => e.date >= cutoff).length` never exceeds the row count |
| `Streaks.CountSinceIsDays` | src/db/database.ts:183-192 | on rows with distinct dates, the week and month counts are the numbers of days on or after the cutoff |
| `Streaks.SegmentIsRun` | src/db/database.ts:168-179 | rows each dated the day after the previous one cover a run of consecutive days |
| `Streaks.RunIsSegment` | src/db/database.ts:168-179 | in an ascending list, every run of consecutive days is such a block of adjacent rows |
| `Streaks.RunFits` | src/db/database.ts:165-180 | no run is longer than the number of days with an entry |
| `Streaks.CurrentStreakUnique` | src/db/database.ts:147-162 | the current streak is determined by the days and today |
| `Streaks.CurrentStreakZeroIffNoEntryToday` | src/db/database.ts:147-162 | the current streak is 0 exactly when today has no entry |
| `Streaks.FutureEntriesIgnored` | src/db/database.ts:158-161 | rows dated after today never change the current streak, both directions |
| `Streaks.LongestStreakUnique` | src/db/database.ts:165-180 | the longest streak is determined by the days |
| `Streaks.StatsUnique` | src/db/database.ts:127-200 | there is one set of statistics meeting the specification |
| `Streaks.StatsBounds` | src/db/database.ts:127-200 | for a non-empty table, the longest streak is between 1 and the total, the current streak is at most the longest, and both counts are at most the total |
| `Streaks.EmptyStatsAreZero` | src/db/database.ts:131-139 | with no entries, every statistic is 0 |
| `Streaks.GapBreaksStreak` | src/db/database.ts:158-161 | entries for today and yesterday, then a gap, give a current streak of 2 |
| `Streaks.NoEntryTodayScenario` | src/db/database.ts:147-162 | entries up to yesterday but none today give a current streak of 0 |
| `Streaks.LongestOfOneTwoThreeTen` | src/db/database.ts:165-180 | days 1, 2, 3 and 10 give a longest streak of 3 |
| `Streaks.TwoDayScenario` | src/db/database.ts:147-180 | two consecutive days ending today give a current and longest streak of 2 |
| `Streaks.EastOfUtcMissesToday` | src/db/database.ts:149-153 | as written, east of UTC the loop starts from yesterday's key: an entry for today only counts as a streak of 0 where the local day's streak is 1 |
| `Streaks.IsoDayOfLocalMidnight` | src/db/database.ts:149-153 | the day that `toISOString()` of local midnight names: the previous day east of UTC, the same day otherwise; its effect is `Streaks.EastOfUtcMissesToday` |
| `Streaks.CurrentStreak` | src/db/database.ts:147-162 | the loop's result is the current streak: today back through the returned count each have an entry, and the day before them has none |
| `Streaks.LongestStreak` | src/db/database.ts:165-180 | the loop's result is the length of a longest run of consecutive days, and some run has that length |
| `EntryStore.FindByDate` | src/db/database.ts:52-56 | the lookup returns a row with that date, and returns null exactly when no row has it |
| `EntryStore.UpdateWhereDate` | src/db/database.ts:76-79 | the `UPDATE` keeps the row count, every id and every date, so the set of days |
| `EntryStore.Upsert` | src/db/database.ts:66-86 | after an upsert the days are the old days plus the upserted one, the table grows by at most one row and the counter by at most one |
| `EntryStore.FindByDateUnique` | src/db/database.ts:32 | with unique dates, the lookup returns the one row for that date |
| `EntryStore.UpsertKeepsTableValid` | src/db/database.ts:30-36 | an upsert keeps dates unique, ids distinct and below the `AUTOINCREMENT` counter |
| `EntryStore.UpsertStoresValues` | src/db/database.ts:72-85 | after an upsert, the date has a row, and every row with that date carries the given mood, highlight and timestamp |
| `EntryStore.UpsertExistingRow` | src/db/database.ts:74-79 | an existing date is updated in place: same row count, same ids, same counter |
| `EntryStore.UpsertNewRow` | src/db/database.ts:80-85 | a new date appends one row with the next id, and the counter moves on |
| `EntryStore.UpsertOtherDatesUnchanged` | src/db/database.ts:66-86 | an upsert never changes what a lookup of another date returns |
| `EntryStore.UpsertIdempotent` | src/db/database.ts:66-86 | a second identical upsert leaves the rows as the first left them |
| `EntryStore.Store.constructor` | src/db/database.ts:29-38 | the new table is empty, valid, and numbers ids from 1 |
| `EntryStore.Store.GetEntryByDate` | src/db/database.ts:50-61 | `getEntryByDate` returns the row for the date, or null exactly when the date has none |
| `EntryStore.Store.UpsertEntry` | src/db/database.ts:66-92 | `upsertEntry` keeps the table valid, and afterwards the date's row has the given mood and highlight |
| `EntryStore.Store.GetAllEntries` | src/db/database.ts:97-107 | `getAllEntries` returns every row, each once, dates strictly descending |
| `EntryStore.Store.GetEntriesWithHighlights` | src/db/database.ts:112-122 | `getEntriesWithHighlights` returns, newest first, exactly the rows whose highlight is neither null nor empty |
| `EntryStore.Store.DeleteAllEntries` | src/db/database.ts:216-224 | `deleteAllEntries` empties the table but keeps the id counter, as `AUTOINCREMENT` does |
| `EntryStore.Store.GetStreakStats` | src/db/database.ts:127-200 | `getStreakStats` returns the current streak, the longest streak, the number of days with an entry, and the numbers on or after the two cutoffs; all zeros for an empty table |
| `EntryStore.EmptyTableStats` | src/db/database.ts:131-139 | the early return's zeros meet the specification for an empty table |
| `Moods.Find` | src/constants/moods.ts:17 | `find` returns the first mood with the value, or nothing when none has it |
| `Moods.MoodValues` | src/constants/moods.ts:1-14 | the table holds 12 moods with values 1..12 in order, pairwise distinct, and index 5 is 'Normal' |
| `Moods.FindInTable` | src/constants/moods.ts:17 | the lookup finds values 1..12 at index value - 1 and nothing else |
| `Moods.GetMoodById` | src/constants/moods.ts:16-18 | `getMoodById` returns the mood with that value for 1..12, otherwise the 'Normal' default, always a table entry |
| `HighlightSearch.Matches` | src/screens/WinsScreen.tsx:39 | the highlight is present and its lowered text includes the lowered query; `HighlightSearch.KeptEntriesContainQuery` and `HighlightSearch.NullHighlightNeverMatches` state it |
| `HighlightSearch.SearchFilter` | src/screens/PastWinsScreen.tsx:104-114 | a blank query keeps the whole list; otherwise exactly the matching entries, in order, with every copy of each |
| `HighlightSearch.BlankQueryShowsAll` | src/screens/WinsScreen.tsx:35-36 | an empty or all-whitespace query shows every entry |
| `HighlightSearch.NullHighlightNeverMatches` | src/screens/WinsScreen.tsx:38-40 | `entry.highlight?.` on a null highlight never matches a non-blank query |
| `HighlightSearch.KeptEntriesContainQuery` | src/screens/WinsScreen.tsx:38-40 | every kept entry has a highlight containing the query, ignoring case |
| `HighlightSearch.MatchingUsesUntrimmedQuery` | src/screens/WinsListScreen.tsx:40-44 | only the blank test trims: the query " a" misses the highlight "a" |
| `HighlightSearch.LongerNeedleNeverIncluded` | src/screens/WinsScreen.tsx:39 | a query longer than the highlight never matches |
| `HighlightSearch.LowerKeepsWhitespace` | src/screens/WinsScreen.tsx:39 | lowering the query does not change which characters are whitespace |
| `HighlightSearch.SearchIgnoresQueryCase` | src/screens/WinsListScreen.tsx:43-45 | queries that lower to the same string give the same list |
| `PastWins.Swap` | src/screens/PastWinsScreen.tsx:27 | the destructuring swap keeps the length |
| `PastWins.SwapPermutes` | src/screens/PastWinsScreen.tsx:27 | a swap permutes the elements |
| `PastWins.FisherYates` | src/screens/PastWinsScreen.tsx:25-28 | the swaps from index i down to 1 keep the length |
| `PastWins.FisherYatesPermutes` | src/screens/PastWinsScreen.tsx:23-30 | whatever indices are drawn, the shuffle is a permutation |
| `PastWins.SelfChoicesKeepOrder` | src/screens/PastWinsScreen.tsx:26-27 | drawing j = i at every step leaves the order unchanged |
| `PastWins.TwoCardsSwap` | src/screens/PastWinsScreen.tsx:26-27 | with two cards, drawing 0 reverses them, so both orders are reachable |
| `PastWins.ShuffleArray` | src/screens/PastWinsScreen.tsx:23-30 | the in-place loop on a copied array returns the Fisher–Yates result for the drawn indices, a permutation of the input |
| `PastWins.PastWinsScreen.constructor` | src/screens/PastWinsScreen.tsx:34-39 | the initial state: empty lists, cursor 0, empty query |
| `PastWins.PastWinsScreen.LoadAndShuffle` | src/screens/PastWinsScreen.tsx:42-50 | the deck is a shuffle of the loaded entries, both lists are the entries as loaded, and the cursor is back at 0 |
| `PastWins.PastWinsScreen.CanGoNext` | src/screens/PastWinsScreen.tsx:101 | false exactly on the last card or for an empty deck |
| `PastWins.PastWinsScreen.CanGoPrev` | src/screens/PastWinsScreen.tsx:102 | false exactly on the first card |
| `PastWins.PastWinsScreen.HandleNext` | src/screens/PastWinsScreen.tsx:58-71 | moves one card on exactly when there is a next card; the cursor stays within the deck |
| `PastWins.PastWinsScreen.HandlePrev` | src/screens/PastWinsScreen.tsx:73-85 | moves one card back exactly when there is a previous card; the cursor stays within the deck |
| `PastWins.PastWinsScreen.VisibleCount` | src/screens/PastWinsScreen.tsx:170 | `Math.min(3, len - currentIndex)`: 1 to 3 cards for a non-empty deck, 3 whenever 3 remain, and otherwise exactly the cards to the end of the deck |
| `PastWins.PastWinsScreen.RenderNoteStack` | src/screens/PastWinsScreen.tsx:144-229 | nothing for an empty deck; otherwise `visibleCount` notes from the cursor on, the top note first, offset 8 per place, with strictly decreasing `zIndex` |
| `PastWins.PastWinsScreen.HandleSearch` | src/screens/PastWinsScreen.tsx:104-114 | the list view shows the search of all entries for the query; the deck and cursor are untouched |
| `Wins.CountNoun` | src/screens/WinsScreen.tsx:67 | "entry" exactly for one, otherwise "entries" |
| `Wins.WinsScreen.constructor` | src/screens/WinsScreen.tsx:17-19 | the initial state: empty lists, empty query |
| `Wins.WinsScreen.LoadEntries` | src/screens/WinsScreen.tsx:21-25 | both lists become the loaded entries |
| `Wins.WinsScreen.HandleSearch` | src/screens/WinsScreen.tsx:33-43 | the shown list is the search of the entries for the query, always a subsequence of them |
| `Wins.WinsScreen.Subtitle` | src/screens/WinsScreen.tsx:66-68 | the subtitle is the decimal count of shown entries, with no leading zero, followed by " entry" exactly when it is 1, and by " entries" otherwise |
| `WinsList.WinsListScreen.constructor` | src/screens/WinsListScreen.tsx:22-24 | the initial state: empty lists, empty query |
| `WinsList.WinsListScreen.LoadEntries` | src/screens/WinsListScreen.tsx:26-30 | both lists become the loaded entries |
| `WinsList.WinsListScreen.HandleSearch` | src/screens/WinsListScreen.tsx:38-48 | the shown list is the search of the entries for the query |
| `WinsList.WinsListScreen.Counts` | src/screens/WinsListScreen.tsx:98 | the shown count never exceeds the total |
| `WinsList.WinsListScreen.CountLabel` | src/screens/WinsListScreen.tsx:97-99 | the label is two decimal numbers with no leading zero around '/': the shown count and the total |
| `MoodCalendar.MoodColor` | src/screens/MoodScreen.tsx:20-23 | a day's colour is its mood's colour for moods 1..12, otherwise the 'Normal' colour |
| `MoodCalendar.Marked` | src/screens/MoodScreen.tsx:18-36 | the `forEach` fold as a function of the entries: each entry with a mood sets its day's colour, later rows overwriting earlier ones; its keys and colours are `MoodCalendar.MarkedKeys` and `MoodCalendar.MarkedColor` |
| `MoodCalendar.MarkedKeys` | src/screens/MoodScreen.tsx:18-36 | a day is marked exactly when some entry for it has a mood |
| `MoodCalendar.MarkedColor` | src/screens/MoodScreen.tsx:21-23 | with unique dates, each marked day has its entry's mood colour |
| `MoodCalendar.MarkedCount` | src/screens/MoodScreen.tsx:18-36 | with unique dates, the number of marked days is the number of entries with a mood |
| `MoodCalendar.DuplicateDayCountsTwice` | src/screens/MoodScreen.tsx:21-34 | two rows for one day mark one day but count 2 moods, so the count equals the marked days only under unique dates |
| `MoodCalendar.MarkedStep` | src/screens/MoodScreen.tsx:18-36 | one more entry updates the marks and the count as one `forEach` step does |
| `MoodCalendar.MoodScreen.constructor` | src/screens/MoodScreen.tsx:10-11 | nothing marked, both counts 0 |
| `MoodCalendar.MoodScreen.LoadMoodData` | src/screens/MoodScreen.tsx:13-40 | the loop marks exactly the days with a mood, each with its colour; `total` is the number of entries and `withMood` the number with a mood, at most `total` and equal to the marked days when dates are unique |
| `ReflectionCheckIn.NormalizeHighlight` | src/screens/ReflectionCheckInScreen.tsx:43 | `reflection.trim()`, or null when that is empty, is null exactly for a blank reflection, and otherwise the non-empty trimmed text |
| `ReflectionCheckIn.NormalizeStable` | src/screens/ReflectionCheckInScreen.tsx:43 | a stored highlight normalises to itself |
| `ReflectionCheckIn.NormalizeIgnoresPadding` | src/screens/ReflectionCheckInScreen.tsx:43 | surrounding whitespace does not change what is stored |
| `ReflectionCheckIn.ReflectionCheckInScreen.constructor` | src/screens/ReflectionCheckInScreen.tsx:23-27 | the route's mood, an empty reflection, not saving |
| `ReflectionCheckIn.ReflectionCheckInScreen.SetReflection` | src/screens/ReflectionCheckInScreen.tsx:98 | typing changes the reflection and nothing else |
| `ReflectionCheckIn.ReflectionCheckInScreen.HandleSave` | src/screens/ReflectionCheckInScreen.tsx:29-63 | with no mood (or 0), an alert and no write; otherwise today's row gets the mood and the normalised reflection and the screen moves to Stats; a failed write alerts, re-enables the button and leaves the table as it was |
| `ReflectionCheckIn.ReflectionCheckInScreen.PressSave` | src/screens/ReflectionCheckInScreen.tsx:109-110 | while saving, a press changes nothing |
| `TimePicker.GenerateHours` | src/components/TimePicker.tsx:22-24 | 24 items, item i is i, exactly the hours 0..23 |
| `TimePicker.GenerateMinutes` | src/components/TimePicker.tsx:27-29 | 60 items, item i is i, exactly the minutes 0..59 |
| `TimePicker.FormatHour` | src/components/TimePicker.tsx:31-33 | two digits reading back as the hour, for 0..99 |
| `TimePicker.FormatMinute` | src/components/TimePicker.tsx:35-37 | two digits reading back as the minute, for 0..99 |
| `TimePicker.Period` | src/components/TimePicker.tsx:40 | "PM" exactly from 12 on, "AM" exactly before |
| `TimePicker.DisplayHour` | src/components/TimePicker.tsx:41 | `hour % 12`, or 12 when that is 0, is 1..12 on the same 12-hour dial: midnight and noon show 12, 13..23 show hour - 12; negative hours give 12 or a negative dial |
| `TimePicker.FormatDisplayTime` | src/components/TimePicker.tsx:39-43 | the dial hour, ':', the padded minute, ' ' and the period; its shape is `TimePicker.DisplayTimeShows` |
| `TimePicker.DisplayTimeShows` | src/components/TimePicker.tsx:39-43 | for a wheel time, the text is the dial hour without a leading zero, ':', two minute digits, ' ' and the period, 7 or 8 characters |
| `TimePicker.DialAndPeriodDetermineHour` | src/components/TimePicker.tsx:40-41 | dial hour and period together determine the hour |
| `TimePicker.DisplayTimeInjective` | src/components/TimePicker.tsx:39-43 | different wheel times display differently |
| `TimePicker.MidnightExample` | src/components/TimePicker.tsx:39-43 | 0:05 displays as "12:05 AM" |
| `TimePicker.NoonExample` | src/components/TimePicker.tsx:39-43 | 12:00 displays as "12:00 PM" |
| `TimePicker.Clamp` | src/components/TimePicker.tsx:81 | `Math.max(0, Math.min(hi, index))` is within [0, hi] and the index itself when it is in range |
| `TimePicker.ClampStable` | src/components/TimePicker.tsx:81 | clamping is idempotent and monotone |
| `TimePicker.ScrollPicksItem` | src/components/TimePicker.tsx:80-90 | the clamped index always lands on the wheel item with that value |
| `TimePicker.TimePickerState.constructor` | src/components/TimePicker.tsx:50-51 | the wheels start at the given hour and minute |
| `TimePicker.TimePickerState.HandleHourScroll` | src/components/TimePicker.tsx:78-85 | the hour becomes the clamped index, the minute is kept, and the state changes exactly when the value differs |
| `TimePicker.TimePickerState.HandleMinuteScroll` | src/components/TimePicker.tsx:87-94 | the minute becomes the clamped index, the hour is kept, and the state changes exactly when the value differs |
| `Settings.FormatTime` | src/screens/SettingsScreen.tsx:81-86 | `formatTime` with JavaScript `%` and `padStart`; it equals the picker's text by `Settings.FormatTimeAgrees` |
| `Settings.FormatTimeAgrees` | src/screens/SettingsScreen.tsx:81-86 | `formatTime` and the picker's `formatDisplayTime` give the same text for every input |
| `Settings.FormatTimeShows` | src/screens/SettingsScreen.tsx:81-86 | for a wheel time, `formatTime` is the dial hour, ':', two minute digits, ' ' and the period |
| `Settings.FormatTimeInjective` | src/screens/SettingsScreen.tsx:81-86 | different wheel times give different texts |
| `Settings.OptionLabelIsFormatted` | src/screens/SettingsScreen.tsx:195-200 | each preset's label is `formatTime` of its hour and minute |
| `Settings.OptionLabelsAreFormatted` | src/screens/SettingsScreen.tsx:195-200 | all six labels are `formatTime` of their times |
| `Settings.IsSelected` | src/screens/SettingsScreen.tsx:115 | an option is selected when both its hour and minute equal the current ones; `Settings.SelectedIffSameLabel` relates this to the labels |
| `Settings.AtMostOneSelected` | src/screens/SettingsScreen.tsx:115 | the presets have distinct times, so at most one is highlighted |
| `Settings.PresetOnTheWheels` | src/screens/SettingsScreen.tsx:195-200 | every preset is on the hour and within 0..23 |
| `Settings.SelectedIffLabelMatches` | src/screens/SettingsScreen.tsx:115 | an option whose label is its formatted time is selected exactly when the label equals the formatted current time |
| `Settings.SelectedIffSameLabel` | src/screens/SettingsScreen.tsx:115-192 | a preset is highlighted exactly when its label equals the "Current:" text |
| `Settings.DefaultSelectsNinePm` | src/screens/SettingsScreen.tsx:22-23 | with the default 21:00, only the "9:00 PM" preset is highlighted |

## Findings

| source | as written | input that shows it | evidently intended | confidence | as-written member | corrected member |
|---|---|---|---|---|---|---|
| src/db/database.ts:149-153 | the expected day is `toISOString().split('T')[0]` of local midnight, which is the UTC date and so the previous day in any zone east of UTC | a device at UTC+1 with one entry, for today: the loop expects yesterday's key, skips today's row, and reports a current streak of 0 | counting back from the local day, as `getTodayLocalDate` (src/db/dateUtils.ts:1-5) insists, giving 1 | high, not executed | `Streaks.EastOfUtcMissesToday` | `EntryStore.Store.GetStreakStats` |

## Left out

- SQLite itself, `async`/`await`, and `initDb`/`openDatabaseAsync`:
  - the table is a class holding its rows and `AUTOINCREMENT` counter;
  - each query is the value it returns.
- Error paths that only log are not modelled:
  - read errors in `getAllEntries`, `getEntriesWithHighlights` and `getEntryByDate` returning empty or null;
  - the catch in `getStreakStats` returning zeros;
  - an `upsertEntry` whose lookup failed and then inserted.

  The one write failure whose effect is visible is modelled by the `writeOk` parameter of ReflectionCheckIn's `handleSave`.
- The clock and the time zone:
  - today, the week cutoff (`toISOString` of now minus 7 days) and the month cutoff (`toISOString` of the first of the month) are parameters;
  - the UTC shift of the cutoffs is not modelled;
  - the UTC shift of the streak's start day is the finding above.
- `getISOTimestamp` is the `createdAt` parameter of the upsert.
- `Math.round` of the millisecond difference of two local midnights is modelled as the difference of their day numbers. The two instants are whole days apart up to a daylight-saving hour, which the rounding removes.
- Keys are modelled for years 1000..9999 only. `getFullYear()` is interpolated without padding, so other years give keys of another length. Those keys are not part of the model.
- String order is compared by code point, not by UTF-16 unit. Keys are ASCII, so this does not matter for them.
- KeyOrderIsChronological: covers code-point string order (`ORDER BY date` under SQLite's binary collation, and `<`), not `localeCompare`. The locale's collation has no model here.
- Entries.SortByDate: `localeCompare` at src/db/database.ts:142-144 is taken to order the fixed-shape `YYYY-MM-DD` keys as code-point order does. Those keys are digits and '-' in fixed places.
- `toLowerCase` is ASCII only, because Unicode case mapping has no model here.
- `Math.random` is the sequence of drawn indices: any sequence with index k at most k.
- The scroll offset's `Math.round(y / 40)` is taken as the index argument, because floating point is not modelled.
- The `onTimeChange` effect and the initial `scrollTo` of the picker are not modelled: they are React effects with no state of their own.
- Moods that are NaN or fractional are not modelled; moods are integers.
- `MoodColor` covers the colour only. The calendar's other styles are constants.
- Mood `name` is the source's `label` field. `label` is a reserved word in Dafny.
- Not modelled, because they only present data:
  - `getRotation`, the animations, scale and opacity of the notes;
  - `formatDisplayDate`'s locale formatting;
  - `viewMode`, navigation, theming;
  - the Stats, Today, Feeling and MoodCheckIn screens.
- SettingsScreen's notification scheduling and AsyncStorage (src/screens/SettingsScreen.tsx:29-79), and the reset dialog around `deleteAllEntries`. They are device I/O.
- These definitions carry no contract of their own: `TimePicker.FormatDisplayTime`, `Settings.FormatTime`, `Dates.GetTodayLocalDate`, `Dates.DateKey`, `Dates.PrevDay`, `JsText.LexLess`, `Entries.HasHighlight`, `HighlightSearch.Matches`, `Settings.IsSelected`, `MoodCalendar.Marked` and `Streaks.IsoDayOfLocalMidnight`. The lemmas named in their rows state what they mean.
