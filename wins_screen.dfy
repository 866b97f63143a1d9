/**
 * The state of src/screens/WinsScreen.tsx: the loaded highlights, the list
 * the search leaves, the query, and the count in the subtitle.
 */
module Wins {
  import opened JsText
  import opened Seqs
  import opened Entries
  import opened HighlightSearch

  /** `length === 1 ? 'entry' : 'entries'`: the singular exactly for one entry. */
  function CountNoun(n: nat): (w: string)
    ensures w == "entry" <==> n == 1
    ensures w == "entry" || w == "entries"
  {
    if n == 1 then "entry" else "entries"
  }

  class WinsScreen {
    var entries: seq<Entry>
    var filteredEntries: seq<Entry>
    var searchQuery: string

    /** The shown list is an order-preserving selection of the loaded one. */
    ghost predicate Valid()
      reads this
    {
      IsSubsequence(filteredEntries, entries)
    }

    constructor ()
      ensures Valid()
      ensures entries == [] && filteredEntries == [] && searchQuery == ""
    {
      entries := [];
      filteredEntries := [];
      searchQuery := "";
    }

    /** `loadEntries` (src/screens/WinsScreen.tsx:21-25): both lists are the loaded data. */
    method LoadEntries(data: seq<Entry>)
      modifies this
      ensures Valid()
      ensures entries == data && filteredEntries == data && searchQuery == old(searchQuery)
    {
      entries := data;
      filteredEntries := data;
      SubsequenceOfSelf(data);
    }

    /** `handleSearch` (src/screens/WinsScreen.tsx:33-43). */
    method HandleSearch(query: string)
      modifies this
      ensures Valid()
      ensures searchQuery == query && entries == old(entries)
      ensures filteredEntries == SearchFilter(entries, query)
    {
      searchQuery := query;
      filteredEntries := SearchFilter(entries, query);
    }

    /**
     * The subtitle (src/screens/WinsScreen.tsx:66-68): the decimal count of
     * the shown list, a space, and "entry" exactly when that count is 1.
     */
    function Subtitle(): (s: string)
      reads this
      ensures exists digits :: AllDigits(digits) && DigitsValue(digits) == |filteredEntries|
                && 0 < |digits| && (|digits| == 1 || digits[0] != '0')
                && (s == digits + " entry" <==> |filteredEntries| == 1)
                && (s == digits + " entries" <==> |filteredEntries| != 1)
    {
      var n := |filteredEntries|;
      var digits := NatToString(n);
      var s := digits + " " + CountNoun(n);
      assert 0 < |digits| && (|digits| == 1 || digits[0] != '0');
      assert s == digits + " entry" <==> n == 1 by {
        if n != 1 {
          assert |s| != |digits + " entry"|;
        }
      }
      assert s == digits + " entries" <==> n != 1 by {
        if n == 1 {
          assert |s| != |digits + " entries"|;
        }
      }
      s
    }
  }
}
