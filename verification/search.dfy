/** `BookSearchViewModel.performSearch`: validate the query, run the primary
    catalog search, keep the academic records, derive related keywords, run
    one search per keyword and append the new books. The view model's
    published properties are a state value; the catalog is an oracle from
    query to outcome. */
module Search {
  import opened Wrappers
  import opened Text
  import opened Books
  import opened Keywords
  import opened FanOut

  /** The published properties of the view model. */
  datatype SearchState = SearchState(
    searchText: string,
    books: seq<Book>,
    isSearching: bool,
    relatedKeywords: seq<string>,
    hasSearched: bool)

  /** `JapaneseBookAPI.searchBooks`, seen only through its outcome. */
  type Catalog = string -> Outcome

  /** The outcomes of the searches issued for `keywords`, in issue order. */
  function Issue(catalog: Catalog, keywords: seq<string>): (r: seq<Outcome>)
    ensures |r| == |keywords|
    ensures forall i :: 0 <= i < |r| ==> r[i] == catalog(keywords[i])
  {
    seq(|keywords|, i requires 0 <= i < |keywords| => catalog(keywords[i]))
  }

  /** A book found by one of the completed searches was found by the search
      for one of the keywords, whatever the completion order. */
  lemma FoundByKeyword(catalog: Catalog, keywords: seq<string>, completion: seq<Outcome>, b: Book)
    requires multiset(completion) == multiset(Issue(catalog, keywords))
    requires FoundBySome(b, completion)
    ensures exists k :: k in keywords && catalog(k).Success? && b in catalog(k).value
  {
    var j :| 0 <= j < |completion| && completion[j].Success? && b in completion[j].value;
    assert completion[j] in multiset(Issue(catalog, keywords));
    var i :| 0 <= i < |keywords| && Issue(catalog, keywords)[i] == completion[j];
    assert keywords[i] in keywords;
  }

  /** Conversely, a book returned by the search for one of the keywords is
      found among the completed searches, whatever their order. */
  lemma KeywordFindsBook(catalog: Catalog, keywords: seq<string>, completion: seq<Outcome>, b: Book, k: string)
    requires multiset(completion) == multiset(Issue(catalog, keywords))
    requires k in keywords && catalog(k).Success? && b in catalog(k).value
    ensures FoundBySome(b, completion)
  {
    var i :| 0 <= i < |keywords| && keywords[i] == k;
    assert Issue(catalog, keywords)[i] in multiset(completion);
    var j :| 0 <= j < |completion| && completion[j] == Issue(catalog, keywords)[i];
  }

  /** `performSearch()`. The completion order of the keyword searches is
      chosen arbitrarily. */
  method PerformSearch(s: SearchState, catalog: Catalog, allowList: seq<string>, extract: Extractor)
    returns (r: SearchState)
    // a blank query is ignored
    ensures IsBlank(s.searchText) ==> r == s
    // a failed primary search only clears the spinner; books and keywords keep their old values
    ensures !IsBlank(s.searchText) && catalog(s.searchText).Failure? ==>
              r == s.(isSearching := false, hasSearched := true)
    ensures !IsBlank(s.searchText) && catalog(s.searchText).Success? ==>
              var primary := FilterByPublishers(catalog(s.searchText).value, allowList);
              var pool := KeywordPool(primary, s.searchText, extract);
              && r.searchText == s.searchText && !r.isSearching && r.hasSearched
              // the primary list comes first, unchanged
              && |r.books| >= |primary| && r.books[..|primary|] == primary
              // then exactly the academic books new to the primary list that some keyword search returned
              && (forall b :: b in r.books[|primary|..] <==>
                    && IsAcademic(b, allowList) && !HasId(primary, b.id)
                    && exists k :: k in r.relatedKeywords && catalog(k).Success? && b in catalog(k).value)
              // each search's books appended together, in catalog order, searches in some completion order
              && (exists completion: seq<Outcome> ::
                    && multiset(completion) == multiset(Issue(catalog, r.relatedKeywords))
                    && r.books == primary + Additions(primary, completion, allowList))
              // in some order, exactly what the keyword searches contribute
              && multiset(r.books[|primary|..])
                 == multiset(Additions(primary, Issue(catalog, r.relatedKeywords), allowList))
              // at most five distinct keywords, drawn from the pool, never the query
              && |r.relatedKeywords| == Min(MaxRelatedKeywords, |pool|)
              && Distinct(r.relatedKeywords)
              && (forall k :: k in r.relatedKeywords ==> k in pool)
              // no academic book in the primary result: no keyword, no fan-out, no books
              && (primary == [] ==> r.relatedKeywords == [] && r.books == [])
  {
    TrimEmptyIffBlank(s.searchText);
    if |Trim(s.searchText)| == 0 {
      return s;
    }
    var searching := s.(isSearching := true, hasSearched := true);
    match catalog(s.searchText)
    case Failure(_) =>
      r := searching.(isSearching := false);
    case Success(raw) =>
      var primary := FilterByPublishers(raw, allowList);
      var keywords := ExtractRelatedKeywords(primary, s.searchText, extract);
      var issued := Issue(catalog, keywords);
      assert multiset(issued) == multiset(issued);
      var completion :| multiset(completion) == multiset(issued);
      var merged := Merge(primary, completion, allowList);
      AdditionsCompletionOrder(primary, completion, issued, allowList);
      forall b | b in merged[|primary|..]
        ensures exists k :: k in keywords && catalog(k).Success? && b in catalog(k).value
      {
        FoundByKeyword(catalog, keywords, completion, b);
      }
      forall b, k | IsAcademic(b, allowList) && !HasId(primary, b.id)
                    && k in keywords && catalog(k).Success? && b in catalog(k).value
        ensures b in merged[|primary|..]
      {
        KeywordFindsBook(catalog, keywords, completion, b, k);
      }
      assert merged == primary + Additions(primary, completion, allowList);
      if primary == [] {
        NoBooksNoKeywords(s.searchText, extract);
        assert merged[|primary|..] == [];
      }
      r := SearchState(s.searchText, merged, false, keywords, true);
  }
}
