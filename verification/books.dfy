/** The book record returned by the catalog and the academic-publisher filter
    of `BookSearchViewModel.filterByPublishers`. */
module Books {
  import opened Wrappers
  import opened Text
  import opened Seqs

  /** A catalog record. The id is provider-assigned and stable across
      queries; the remaining fields are optional in the provider's response.
      Cover image and publication date play no part in the modelled logic. */
  datatype Book = Book(
    id: string,
    title: Option<string>,
    author: Option<string>,
    publisher: Option<string>,
    description: Option<string>)

  /** Some book in `books` carries `id`. */
  predicate HasId(books: seq<Book>, id: string)
  {
    exists i :: 0 <= i < |books| && books[i].id == id
  }

  /** An id present in a prefix is present in the whole list. */
  lemma HasIdInExtension(prefix: seq<Book>, books: seq<Book>, id: string)
    requires |prefix| <= |books| && books[..|prefix|] == prefix
    requires HasId(prefix, id)
    ensures HasId(books, id)
  {
    var k :| 0 <= k < |prefix| && prefix[k].id == id;
    assert books[k] == prefix[k];
  }

  /** The contrapositive: an id absent from a list is absent from its prefixes. */
  lemma NoIdInPrefix(prefix: seq<Book>, books: seq<Book>, id: string)
    requires |prefix| <= |books| && books[..|prefix|] == prefix
    requires !HasId(books, id)
    ensures !HasId(prefix, id)
  {
    forall k | 0 <= k < |prefix| ensures prefix[k].id != id {
      assert books[k] == prefix[k];
    }
  }

  /** No two books in `books` share an id. */
  predicate UniqueIds(books: seq<Book>)
  {
    forall i, j :: 0 <= i < j < |books| ==> books[i].id != books[j].id
  }

  /** The per-record test of `filterByPublishers`: the publisher name is
      present and contains one of the allow-list fragments. */
  predicate IsAcademic(b: Book, allowList: seq<string>)
  {
    match b.publisher
    case None => false
    case Some(name) => exists k :: k in allowList && Contains(name, k)
  }

  /** `filterByPublishers(books:)`: the academic records, in catalog order. */
  function FilterByPublishers(raw: seq<Book>, allowList: seq<string>): (r: seq<Book>)
    ensures IsSubsequence(r, raw)
    ensures forall b :: b in r <==>
              (b in raw && b.publisher.Some? && exists k :: k in allowList && Contains(b.publisher.value, k))
    ensures forall b :: multiset(r)[b] == if IsAcademic(b, allowList) then multiset(raw)[b] else 0
  {
    Filter(b => IsAcademic(b, allowList), raw)
  }

  /** A record without a publisher never survives the filter. */
  lemma NoPublisherDropped(raw: seq<Book>, allowList: seq<string>, b: Book)
    requires b.publisher.None?
    ensures b !in FilterByPublishers(raw, allowList)
  {
  }

  /** Filtering an already-filtered list changes nothing. */
  lemma FilterByPublishersIdempotent(raw: seq<Book>, allowList: seq<string>)
    ensures FilterByPublishers(FilterByPublishers(raw, allowList), allowList)
            == FilterByPublishers(raw, allowList)
  {
    var r := FilterByPublishers(raw, allowList);
    FilterKeepsAll(b => IsAcademic(b, allowList), r);
    assert forall i :: 0 <= i < |r| ==> IsAcademic(r[i], allowList) by {
      forall i | 0 <= i < |r| ensures IsAcademic(r[i], allowList) {
        assert r[i] in r;
      }
    }
  }
}
