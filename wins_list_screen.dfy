/**
 * The state of src/screens/WinsListScreen.tsx: the loaded highlights, the
 * list the search leaves, the query, and the `filtered/total` counter.
 */
module WinsList {
  import opened JsText
  import opened Seqs
  import opened Entries
  import opened HighlightSearch

  class WinsListScreen {
    var entries: seq<Entry>
    var filteredEntries: seq<Entry>
    var searchQuery: string

    /** The shown list is an order-preserving selection of the loaded one. */
    ghost predicate Valid()
      reads this
    {
      IsSubsequence(filteredEntries, entries)
    }

    constructor ()
      ensures Valid()
      ensures entries == [] && filteredEntries == [] && searchQuery == ""
    {
      entries := [];
      filteredEntries := [];
      searchQuery := "";
    }

    /** `loadEntries` (src/screens/WinsListScreen.tsx:26-30): both lists are the loaded data. */
    method LoadEntries(data: seq<Entry>)
      modifies this
      ensures Valid()
      ensures entries == data && filteredEntries == data && searchQuery == old(searchQuery)
    {
      entries := data;
      filteredEntries := data;
      SubsequenceOfSelf(data);
    }

    /** `handleSearch` (src/screens/WinsListScreen.tsx:38-48). */
    method HandleSearch(query: string)
      modifies this
      ensures Valid()
      ensures searchQuery == query && entries == old(entries)
      ensures filteredEntries == SearchFilter(entries, query)
    {
      searchQuery := query;
      filteredEntries := SearchFilter(entries, query);
    }

    /** The two numbers of the counter (src/screens/WinsListScreen.tsx:97-99): shown never exceeds loaded. */
    function Counts(): (c: (nat, nat))
      reads this
      requires Valid()
      ensures c.0 <= c.1
      ensures c.0 == |filteredEntries| && c.1 == |entries|
    {
      SubsequenceLength(filteredEntries, entries);
      (|filteredEntries|, |entries|)
    }

    /** The counter's text, `filtered/total` in decimal. */
    function CountLabel(): (s: string)
      reads this
      requires Valid()
      ensures exists a, b :: s == a + "/" + b && AllDigits(a) && AllDigits(b)
                && 0 < |a| && (|a| == 1 || a[0] != '0') && 0 < |b| && (|b| == 1 || b[0] != '0')
                && DigitsValue(a) == Counts().0 && DigitsValue(b) == Counts().1
    {
      var c := Counts();
      NatToString(c.0) + "/" + NatToString(c.1)
    }
  }
}
