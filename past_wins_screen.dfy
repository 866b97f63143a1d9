/**
 * The deck of src/screens/PastWinsScreen.tsx: the Fisher-Yates shuffle of
 * the highlights, the bounded cursor moved by the tap zones, the stack of up
 * to three notes drawn from the cursor on, and the list-view search.
 */
module PastWins {
  import opened Seqs
  import opened Entries
  import opened HighlightSearch

  /** Exchange of the elements at `i` and `j`: `[a[i], a[j]] = [a[j], a[i]]`. */
  function Swap<T>(s: seq<T>, i: nat, j: nat): (r: seq<T>)
    requires i < |s| && j < |s|
    ensures |r| == |s|
  {
    s[i := s[j]][j := s[i]]
  }

  /** A swap permutes the elements. */
  lemma SwapPermutes<T>(s: seq<T>, i: nat, j: nat)
    requires i < |s| && j < |s|
    ensures multiset(Swap(s, i, j)) == multiset(s)
  {
  }

  /**
   * The random indices: at step `i` the source draws
   * `Math.floor(Math.random() * (i + 1))`, some `j` in `[0, i]`.
   */
  predicate ValidChoices(choices: seq<nat>, n: nat) {
    |choices| == n && forall k :: 0 <= k < n ==> choices[k] <= k
  }

  /** The result of the swaps for steps `i, i - 1, ..., 1` with the drawn indices. */
  function FisherYates<T>(s: seq<T>, choices: seq<nat>, i: int): (r: seq<T>)
    requires ValidChoices(choices, |s|) && i < |s|
    ensures |r| == |s|
    decreases i
  {
    if i <= 0 then s else FisherYates(Swap(s, i, choices[i]), choices, i - 1)
  }

  /** The shuffle permutes the elements, whatever indices were drawn. */
  lemma {:induction false} FisherYatesPermutes<T>(s: seq<T>, choices: seq<nat>, i: int)
    requires ValidChoices(choices, |s|) && i < |s|
    ensures multiset(FisherYates(s, choices, i)) == multiset(s)
    decreases i
  {
    if i > 0 {
      SwapPermutes(s, i, choices[i]);
      FisherYatesPermutes(Swap(s, i, choices[i]), choices, i - 1);
    }
  }

  /** Drawing `j = i` at every step swaps nothing and keeps the order. */
  lemma {:induction false} SelfChoicesKeepOrder<T>(s: seq<T>, choices: seq<nat>, i: int)
    requires ValidChoices(choices, |s|) && i < |s|
    requires forall k :: 0 <= k < |s| ==> choices[k] == k
    ensures FisherYates(s, choices, i) == s
    decreases i
  {
    if i > 0 {
      assert Swap(s, i, choices[i]) == s;
      SelfChoicesKeepOrder(s, choices, i - 1);
    }
  }

  /** Two cards with `j = 0` drawn at step 1 come out swapped: both orders are reachable. */
  lemma TwoCardsSwap<T>(x: T, y: T)
    ensures FisherYates([x, y], [0, 0], 1) == [y, x]
  {
    assert Swap([x, y], 1, 0) == [y, x];
  }

  /**
   * `shuffleArray` (src/screens/PastWinsScreen.tsx:23-30): copies the input
   * into a fresh array and swaps in place from the last index down to 1.
   * The argument, a value here, is not changed.
   */
  method ShuffleArray<T>(items: seq<T>, choices: seq<nat>) returns (shuffled: seq<T>)
    requires ValidChoices(choices, |items|)
    ensures shuffled == FisherYates(items, choices, |items| - 1)
    ensures |shuffled| == |items| && multiset(shuffled) == multiset(items)
  {
    var a := new T[|items|](k requires 0 <= k < |items| => items[k]);
    assert a[..] == items;
    var i := |items| - 1;
    while i > 0
      invariant i < |items| && a.Length == |items|
      invariant FisherYates(a[..], choices, i) == FisherYates(items, choices, |items| - 1)
      decreases i
    {
      var j := choices[i];
      ghost var before := a[..];
      a[i], a[j] := a[j], a[i];
      assert a[..] == Swap(before, i, j);
      i := i - 1;
    }
    shuffled := a[..];
    FisherYatesPermutes(items, choices, |items| - 1);
  }

  /** One note of the stack: the entry, its place from the top, its offset and its `zIndex`. */
  datatype Note = Note(entry: Entry, stackIndex: nat, offset: nat, zIndex: int)

  /** The deck's state. */
  class PastWinsScreen {
    var shuffledEntries: seq<Entry>
    var allEntries: seq<Entry>
    var filteredEntries: seq<Entry>
    var currentIndex: int
    var searchQuery: string

    /** The cursor stays in `[0, max(0, len - 1)]`; the list view shows a subsequence. */
    ghost predicate Valid()
      reads this
    {
      && 0 <= currentIndex
      && (currentIndex < |shuffledEntries| || currentIndex == 0)
      && IsSubsequence(filteredEntries, allEntries)
    }

    constructor ()
      ensures Valid()
      ensures shuffledEntries == [] && allEntries == [] && filteredEntries == []
      ensures currentIndex == 0 && searchQuery == ""
    {
      shuffledEntries := [];
      allEntries := [];
      filteredEntries := [];
      currentIndex := 0;
      searchQuery := "";
    }

    /**
     * `loadAndShuffle` (src/screens/PastWinsScreen.tsx:42-50): the deck is a
     * shuffle of the loaded entries, both lists are the loaded entries, and
     * the cursor is back at 0.
     */
    method LoadAndShuffle(entries: seq<Entry>, choices: seq<nat>)
      requires ValidChoices(choices, |entries|)
      modifies this
      ensures Valid()
      ensures shuffledEntries == FisherYates(entries, choices, |entries| - 1)
      ensures multiset(shuffledEntries) == multiset(entries)
      ensures allEntries == entries && filteredEntries == entries
      ensures currentIndex == 0 && searchQuery == old(searchQuery)
    {
      var shuffled := ShuffleArray(entries, choices);
      shuffledEntries := shuffled;
      allEntries := entries;
      filteredEntries := entries;
      currentIndex := 0;
      SubsequenceOfSelf(entries);
    }

    /** `canGoNext`: false exactly on the last card of the deck, or for an empty deck. */
    function CanGoNext(): (b: bool)
      reads this
      requires Valid()
      ensures b ==> 0 < currentIndex + 1 < |shuffledEntries|
      ensures !b ==> |shuffledEntries| == 0 || currentIndex == |shuffledEntries| - 1
    {
      currentIndex < |shuffledEntries| - 1
    }

    /** `canGoPrev`: false exactly on the first card. */
    function CanGoPrev(): (b: bool)
      reads this
      requires Valid()
      ensures b ==> 0 <= currentIndex - 1 < |shuffledEntries|
      ensures !b ==> currentIndex == 0
    {
      currentIndex > 0
    }

    /** `handleNext` (src/screens/PastWinsScreen.tsx:58-71): one card on, exactly when `canGoNext`. */
    method HandleNext()
      requires Valid()
      modifies this
      ensures Valid()
      ensures currentIndex == if old(CanGoNext()) then old(currentIndex) + 1 else old(currentIndex)
      ensures shuffledEntries == old(shuffledEntries) && allEntries == old(allEntries)
      ensures filteredEntries == old(filteredEntries) && searchQuery == old(searchQuery)
    {
      if currentIndex < |shuffledEntries| - 1 {
        currentIndex := currentIndex + 1;
      }
    }

    /** `handlePrev` (src/screens/PastWinsScreen.tsx:73-85): one card back, exactly when `canGoPrev`. */
    method HandlePrev()
      requires Valid()
      modifies this
      ensures Valid()
      ensures currentIndex == if old(CanGoPrev()) then old(currentIndex) - 1 else old(currentIndex)
      ensures shuffledEntries == old(shuffledEntries) && allEntries == old(allEntries)
      ensures filteredEntries == old(filteredEntries) && searchQuery == old(searchQuery)
    {
      if currentIndex > 0 {
        currentIndex := currentIndex - 1;
      }
    }

    /**
     * `visibleCount = Math.min(3, len - currentIndex)`: between 1 and 3 cards,
     * none past the end, for a non-empty deck with a valid cursor.
     */
    function VisibleCount(): (n: int)
      reads this
      requires Valid()
      ensures |shuffledEntries| > 0 ==> 1 <= n <= 3 && currentIndex + n <= |shuffledEntries|
      ensures |shuffledEntries| > 0 && currentIndex + 3 <= |shuffledEntries| ==> n == 3
      ensures |shuffledEntries| == 0 ==> n == 0
      ensures |shuffledEntries| > 0 && n < 3 ==> currentIndex + n == |shuffledEntries|
    {
      if 3 <= |shuffledEntries| - currentIndex then 3 else |shuffledEntries| - currentIndex
    }

    /**
     * `renderNoteStack` (src/screens/PastWinsScreen.tsx:144-229): nothing for
     * an empty deck, otherwise the cards from the cursor on, top card first,
     * each offset by 8 per place and stacked by a decreasing `zIndex`.
     */
    method RenderNoteStack() returns (notes: seq<Note>)
      requires Valid()
      ensures |shuffledEntries| == 0 ==> notes == []
      ensures |shuffledEntries| > 0 ==> |notes| == VisibleCount()
      ensures forall i :: 0 <= i < |notes| ==>
                notes[i] == Note(shuffledEntries[currentIndex + i], i, 8 * i, |notes| - i)
      ensures |notes| > 0 ==> notes[0].entry == shuffledEntries[currentIndex]
      ensures forall i, j :: 0 <= i < j < |notes| ==> notes[i].zIndex > notes[j].zIndex
    {
      notes := [];
      if |shuffledEntries| == 0 {
        return;
      }
      var visibleCount := VisibleCount();
      var i := 0;
      while i < visibleCount
        invariant 0 <= i <= visibleCount
        invariant |notes| == i
        invariant forall k :: 0 <= k < i ==>
                    notes[k] == Note(shuffledEntries[currentIndex + k], k, 8 * k, visibleCount - k)
      {
        var entryIndex := currentIndex + i;
        var entry := shuffledEntries[entryIndex];
        notes := notes + [Note(entry, i, i * 8, visibleCount - i)];
        i := i + 1;
      }
    }

    /** `handleSearch` (src/screens/PastWinsScreen.tsx:104-114): the list view's filter over all entries. */
    method HandleSearch(query: string)
      requires Valid()
      modifies this
      ensures Valid()
      ensures searchQuery == query && filteredEntries == SearchFilter(allEntries, query)
      ensures shuffledEntries == old(shuffledEntries) && allEntries == old(allEntries)
      ensures currentIndex == old(currentIndex)
    {
      searchQuery := query;
      filteredEntries := SearchFilter(allEntries, query);
    }
  }
}
