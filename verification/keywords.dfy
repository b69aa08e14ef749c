/** `BookSearchViewModel.extractRelatedKeywords`: the union of the keywords
    found in each book's title and description, minus the query, cut to at
    most five. The tokenizer (`JapaneseTextAnalyzer.extractKeywords`) is a
    parameter of the model. */
module Keywords {
  import opened Books

  /** At most this many related keywords are kept (`prefix(5)`). */
  const MaxRelatedKeywords: nat := 5

  /** The keyword extractor, taken as an arbitrary deterministic function. */
  type Extractor = string -> set<string>

  function Min(a: nat, b: nat): nat
  {
    if a <= b then a else b
  }

  /** Keywords of one book: from its title and from its description, when
      present. The author is not consulted. */
  function BookKeywords(b: Book, extract: Extractor): set<string>
  {
    (if b.title.Some? then extract(b.title.value) else {})
    + (if b.description.Some? then extract(b.description.value) else {})
  }

  /** The set accumulated by the loop over `books`. */
  function KeywordUnion(books: seq<Book>, extract: Extractor): (r: set<string>)
    ensures forall w :: w in r <==> exists i :: 0 <= i < |books| && w in BookKeywords(books[i], extract)
  {
    if |books| == 0 then {}
    else
      var rest := KeywordUnion(books[1..], extract);
      assert forall i :: 0 < i < |books| ==> books[i] == books[1..][i - 1];
      BookKeywords(books[0], extract) + rest
  }

  /** The candidates left after `keywords.remove(searchText)`. */
  function KeywordPool(books: seq<Book>, searchText: string, extract: Extractor): (r: set<string>)
    ensures searchText !in r
    ensures forall w :: w in r <==>
              (w != searchText && exists i :: 0 <= i < |books| && w in BookKeywords(books[i], extract))
  {
    KeywordUnion(books, extract) - {searchText}
  }

  /** No keyword appears twice. */
  predicate Distinct(ws: seq<string>)
  {
    forall i, j :: 0 <= i < j < |ws| ==> ws[i] != ws[j]
  }

  /** `Array(pool).prefix(limit)`: the enumeration order of a Swift `Set` is
      unspecified, so each step takes an arbitrary remaining element; which
      elements survive is deliberately not fixed. */
  method TakeAny(pool: set<string>, limit: nat) returns (ks: seq<string>)
    ensures |ks| == Min(limit, |pool|)
    ensures Distinct(ks)
    ensures forall i :: 0 <= i < |ks| ==> ks[i] in pool
  {
    var remaining := pool;
    ks := [];
    while |ks| < limit && remaining != {}
      invariant remaining <= pool
      invariant forall i :: 0 <= i < |ks| ==> ks[i] in pool && ks[i] !in remaining
      invariant Distinct(ks)
      invariant |ks| + |remaining| == |pool|
      invariant |ks| <= limit
      decreases |remaining|
    {
      var w :| w in remaining;
      assert |remaining - {w}| == |remaining| - 1;
      ks := ks + [w];
      remaining := remaining - {w};
    }
  }

  /** `extractRelatedKeywords(from:)`: up to five distinct candidates, none
      of them the query itself. */
  method ExtractRelatedKeywords(books: seq<Book>, searchText: string, extract: Extractor)
    returns (keywords: seq<string>)
    ensures |keywords| == Min(MaxRelatedKeywords, |KeywordPool(books, searchText, extract)|)
    ensures Distinct(keywords)
    ensures forall i :: 0 <= i < |keywords| ==> keywords[i] in KeywordPool(books, searchText, extract)
    ensures searchText !in keywords
  {
    var pool := KeywordPool(books, searchText, extract);
    keywords := TakeAny(pool, MaxRelatedKeywords);
  }

  /** With no primary books there is nothing to extract from, so no related
      keyword exists and no fan-out search is issued. */
  lemma NoBooksNoKeywords(searchText: string, extract: Extractor)
    ensures KeywordPool([], searchText, extract) == {}
  {
  }

  /** Every candidate keyword was produced by the extractor from the title or
      the description of some primary book. */
  lemma {:induction false} PoolComesFromText(books: seq<Book>, searchText: string, extract: Extractor, w: string)
    requires w in KeywordPool(books, searchText, extract)
    ensures exists i :: 0 <= i < |books| &&
              ((books[i].title.Some? && w in extract(books[i].title.value))
               || (books[i].description.Some? && w in extract(books[i].description.value)))
  {
    var i :| 0 <= i < |books| && w in BookKeywords(books[i], extract);
  }
}
