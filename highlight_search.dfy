/**
 * The highlight search that src/screens/PastWinsScreen.tsx,
 * src/screens/WinsScreen.tsx and src/screens/WinsListScreen.tsx repeat in
 * their `handleSearch`: a query that trims to nothing shows every entry,
 * otherwise the entries whose lowercased highlight contains the lowercased
 * query, which is not trimmed.
 */
module HighlightSearch {
  import opened Wrappers
  import opened JsText
  import opened Seqs
  import opened Entries

  /**
   * `entry.highlight?.toLowerCase().includes(query.toLowerCase())`: a null
   * highlight yields `undefined`, which the filter treats as false.
   */
  predicate Matches(e: Entry, query: string) {
    e.highlight.Some? && Includes(ToLower(e.highlight.value), ToLower(query))
  }

  /** The list `handleSearch` hands to `setFilteredEntries`. */
  function SearchFilter(entries: seq<Entry>, query: string): (r: seq<Entry>)
    ensures IsSubsequence(r, entries) && |r| <= |entries|
    ensures Trim(query) == [] ==> r == entries
    ensures Trim(query) != [] ==> forall e :: e in r <==> e in entries && Matches(e, query)
    ensures Trim(query) != [] ==>
              forall e :: multiset(r)[e] == if Matches(e, query) then multiset(entries)[e] else 0
  {
    if Trim(query) == [] then
      SubsequenceOfSelf(entries);
      entries
    else
      FilterKeepsCopies(entries, (e: Entry) => Matches(e, query));
      Filter(entries, (e: Entry) => Matches(e, query))
  }

  /** A query made only of whitespace, or empty, shows the whole list. */
  lemma BlankQueryShowsAll(entries: seq<Entry>, query: string)
    requires forall i :: 0 <= i < |query| ==> IsJsWhitespace(query[i])
    ensures SearchFilter(entries, query) == entries
  {
    TrimEmptyIffBlank(query);
  }

  /** A non-blank query never keeps an entry without a highlight. */
  lemma NullHighlightNeverMatches(entries: seq<Entry>, query: string, e: Entry)
    requires Trim(query) != [] && e.highlight.None?
    ensures e !in SearchFilter(entries, query)
  {
  }

  /** Every entry kept by a non-blank query has a highlight containing the query, ignoring case. */
  lemma KeptEntriesContainQuery(entries: seq<Entry>, query: string, e: Entry)
    requires Trim(query) != [] && e in SearchFilter(entries, query)
    ensures e.highlight.Some?
    ensures exists i :: OccursAt(ToLower(e.highlight.value), ToLower(query), i)
  {
  }

  /**
   * Only the blank test trims: the highlight "a" does not match the query
   * " a", although the query trims to "a".
   */
  lemma MatchingUsesUntrimmedQuery()
    ensures Trim(" a") == "a"
    ensures SearchFilter([Entry(1, 0, None, Some("a"), "")], " a") == []
  {
    TrimLeadingSpace();
    var e := Entry(1, 0, None, Some("a"), "");
    LongerNeedleNeverIncluded(ToLower("a"), ToLower(" a"));
    assert !Matches(e, " a");
  }

  lemma TrimLeadingSpace()
    ensures Trim(" a") == "a"
  {
    assert " a"[1..] == "a";
    assert TrimStart("a") == "a";
    assert TrimStart(" a") == "a";
    assert TrimEnd("a") == "a";
  }

  lemma LongerNeedleNeverIncluded(hay: string, needle: string)
    requires |needle| > |hay|
    ensures !Includes(hay, needle)
  {
  }

  lemma LowerKeepsWhitespace(s: string)
    ensures (forall i :: 0 <= i < |s| ==> IsJsWhitespace(s[i]))
        <==> (forall i :: 0 <= i < |ToLower(s)| ==> IsJsWhitespace(ToLower(s)[i]))
  {
    forall i | 0 <= i < |s| ensures IsJsWhitespace(s[i]) <==> IsJsWhitespace(ToLower(s)[i]) {
      assert ToLower(s)[i] == LowerChar(s[i]);
    }
  }

  /** The search ignores the case of the query: queries equal after lowercasing give the same list. */
  lemma SearchIgnoresQueryCase(entries: seq<Entry>, q1: string, q2: string)
    requires ToLower(q1) == ToLower(q2)
    ensures SearchFilter(entries, q1) == SearchFilter(entries, q2)
  {
    TrimEmptyIffBlank(q1);
    TrimEmptyIffBlank(q2);
    LowerKeepsWhitespace(q1);
    LowerKeepsWhitespace(q2);
    if Trim(q1) != [] {
      FilterAgrees(entries, (e: Entry) => Matches(e, q1), (e: Entry) => Matches(e, q2));
    }
  }
}
